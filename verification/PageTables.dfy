/** Four-level page tables as values, and the reference for unmapping: take the
    pages one by one, and clear the entry that maps each. */
module PageTables {
  import opened Bits
  import opened Dyadic
  import opened Words

  const ENTRIES: nat := 512
  const PAGE_PRESENT: nat := 1
  const PAGE_HUGE: nat := 128
  /** ~PAGE_MASK: bits 12 to 47 of an entry. */
  const ADDRESS_BITS: nat := 0x0000_FFFF_FFFF_F000

  predicate Present(e: nat) {
    And(e, PAGE_PRESENT) != 0
  }

  predicate Huge(e: nat) {
    And(e, PAGE_HUGE) != 0
  }

  function PageAddr(e: nat): nat {
    And(e, ADDRESS_BITS)
  }

  /** PAGE_INDEX(PAGE_ADDR(e)) */
  function Frame(e: nat): nat {
    PageAddr(e) / PAGE_SIZE
  }

  /** The tables in memory, by page frame. */
  type Mem = map<nat, seq<nat>>

  datatype Option<+T> = None | Some(value: T)

  /** The place of one entry. */
  datatype Slot = Slot(frame: nat, index: nat)

  /** How many pages an entry of a table stands for; level 0 is the page table,
      level 3 the PML4. */
  function Pages(level: nat): (r: nat)
    requires level <= 4
    ensures r > 0
  {
    if level == 0 then 1 else ENTRIES * Pages(level - 1)
  }

  /** The entry for page number n in a table of the given level. */
  function Index(level: nat, n: nat): (r: nat)
    requires level <= 3
    ensures r < ENTRIES
  {
    n / Pages(level) % ENTRIES
  }

  lemma NextPageAfter(level: nat, n: nat)
    requires level <= 3
    ensures n < (n / Pages(level) + 1) * Pages(level)
  {
  }

  /** The first page that the next entry stands for. */
  function NextPage(level: nat, n: nat): (r: nat)
    requires level <= 3
    ensures n < r
  {
    NextPageAfter(level, n);
    (n / Pages(level) + 1) * Pages(level)
  }

  /** Every table has all its entries and is used at one level only, and the
      tables that present entries refer to are in memory. Tables may be shared. */
  ghost predicate Tree(mem: Mem, root: nat, level: map<nat, nat>) {
    && root in mem && level.Keys == mem.Keys && level[root] == 3
    && forall f :: f in mem ==>
         && |mem[f]| == ENTRIES && level[f] <= 3
         && forall i :: 0 <= i < ENTRIES && level[f] > 0 && Present(mem[f][i]) && !Huge(mem[f][i]) ==>
              Frame(mem[f][i]) in mem && level[Frame(mem[f][i])] == level[f] - 1
  }

  /** The table of the given level on the way to page n. */
  function TableAt(mem: Mem, root: nat, l: nat, n: nat): Option<nat>
    requires l <= 3
    decreases 3 - l
  {
    if l == 3 then Some(root)
    else match TableAt(mem, root, l + 1, n)
      case None => None
      case Some(f) =>
        if f in mem && Index(l + 1, n) < |mem[f]| then
          var e := mem[f][Index(l + 1, n)];
          if Present(e) && !Huge(e) then Some(Frame(e)) else None
        else None
  }

  /** The present entry, of a page table or huge in a page directory, that maps
      page n. */
  function Leaf(mem: Mem, root: nat, n: nat): Option<Slot> {
    match TableAt(mem, root, 0, n)
    case Some(f) =>
      if f in mem && Index(0, n) < |mem[f]| && Present(mem[f][Index(0, n)]) then Some(Slot(f, Index(0, n))) else None
    case None =>
      match TableAt(mem, root, 1, n)
      case Some(d) =>
        if d in mem && Index(1, n) < |mem[d]| && Present(mem[d][Index(1, n)]) && Huge(mem[d][Index(1, n)])
        then Some(Slot(d, Index(1, n))) else None
      case None => None
  }

  function Cleared(mem: Mem, s: Slot): Mem {
    if s.frame in mem && s.index < |mem[s.frame]| then mem[s.frame := mem[s.frame][s.index := 0]] else mem
  }

  /** The tables after an unmapping, and the frames that lost a reference, in
      the order in which they lost it. */
  datatype Outcome = Outcome(mem: Mem, dropped: seq<nat>)

  function UnmapPage(mem: Mem, root: nat, n: nat): Outcome {
    match Leaf(mem, root, n)
    case None => Outcome(mem, [])
    case Some(s) => Outcome(Cleared(mem, s), [Frame(mem[s.frame][s.index])])
  }

  /** The reference: the pages from n up to, not including, m, in ascending
      order. */
  function Unmap(mem: Mem, root: nat, n: nat, m: nat): Outcome
    decreases m - n
  {
    if n >= m then Outcome(mem, [])
    else
      var first := UnmapPage(mem, root, n);
      var rest := Unmap(first.mem, root, n + 1, m);
      Outcome(rest.mem, first.dropped + rest.dropped)
  }

  /** The pages in a range that have a page table: those for which the page
      table entry is visited. */
  function Visited(mem: Mem, root: nat, n: nat, m: nat): seq<nat>
    decreases m - n
  {
    if n >= m then []
    else (if TableAt(mem, root, 0, n).Some? then [n] else []) + Visited(mem, root, n + 1, m)
  }

  /** Each of them exactly once, in strictly ascending order. */
  lemma {:induction false} VisitedOnce(mem: Mem, root: nat, n: nat, m: nat)
    ensures var v := Visited(mem, root, n, m);
            && (forall i, j :: 0 <= i < j < |v| ==> v[i] < v[j])
            && (forall p: nat :: p in v <==> n <= p < m && TableAt(mem, root, 0, p).Some?)
    decreases m - n
  {
    hide TableAt;
    if n < m {
      VisitedOnce(mem, root, n + 1, m);
      var w := Visited(mem, root, n + 1, m);
      forall i | 0 <= i < |w| ensures n < w[i] {
        assert w[i] in w;
      }
      var v := Visited(mem, root, n, m);
      assert v == w || v == [n] + w;
    }
  }

  // ----- the tree is stable -----

  lemma {:induction false} TableAtLevel(mem: Mem, root: nat, level: map<nat, nat>, l: nat, n: nat)
    requires Tree(mem, root, level) && l <= 3
    ensures TableAt(mem, root, l, n).Some? ==>
              TableAt(mem, root, l, n).value in mem && level[TableAt(mem, root, l, n).value] == l
    decreases 3 - l
  {
    if l < 3 {
      TableAtLevel(mem, root, level, l + 1, n);
    }
  }

  /** Every leaf is a present entry of a page table, or a present huge entry of
      a page directory. */
  lemma LeafIsEntry(mem: Mem, root: nat, level: map<nat, nat>, n: nat)
    requires Tree(mem, root, level) && Leaf(mem, root, n).Some?
    ensures var s := Leaf(mem, root, n).value;
            && s.frame in mem && s.index < ENTRIES && Present(mem[s.frame][s.index])
            && (level[s.frame] == 0 || (level[s.frame] == 1 && Huge(mem[s.frame][s.index])))
  {
    TableAtLevel(mem, root, level, 0, n);
    TableAtLevel(mem, root, level, 1, n);
  }

  /** The entries that may be cleared: they lead to no table. */
  ghost predicate IsLeaf(mem: Mem, level: map<nat, nat>, s: Slot)
    requires level.Keys == mem.Keys
  {
    && s.frame in mem && s.index < |mem[s.frame]|
    && (level[s.frame] == 0 || (level[s.frame] == 1 && Huge(mem[s.frame][s.index])))
  }

  lemma ClearKeepsTree(mem: Mem, root: nat, level: map<nat, nat>, s: Slot)
    requires Tree(mem, root, level) && IsLeaf(mem, level, s)
    ensures Tree(Cleared(mem, s), root, level)
  {
  }

  /** Clearing a leaf changes no entry that leads to a table. */
  lemma ClearKeepsLinks(mem: Mem, root: nat, level: map<nat, nat>, s: Slot, f: nat, i: nat)
    requires Tree(mem, root, level) && IsLeaf(mem, level, s)
    requires f in mem && level[f] > 0 && i < ENTRIES
    ensures var mem' := Cleared(mem, s);
            && f in mem' && |mem'[f]| == |mem[f]| == ENTRIES
            && (Present(mem[f][i]) && !Huge(mem[f][i]) ==> mem'[f][i] == mem[f][i])
            && (Present(mem'[f][i]) && !Huge(mem'[f][i]) ==> mem'[f][i] == mem[f][i])
  {
    assert !Present(0);
    hide Present, Huge, Frame;
  }

  lemma {:induction false} ClearKeepsTables(mem: Mem, root: nat, level: map<nat, nat>, s: Slot, l: nat, n: nat)
    requires Tree(mem, root, level) && IsLeaf(mem, level, s) && l <= 3
    ensures TableAt(Cleared(mem, s), root, l, n) == TableAt(mem, root, l, n)
    decreases 3 - l
  {
    if l < 3 {
      ClearKeepsTables(mem, root, level, s, l + 1, n);
      TableAtLevel(mem, root, level, l + 1, n);
      hide Tree, IsLeaf, Cleared, Present, Huge, Frame, Index;
      if TableAt(mem, root, l + 1, n).Some? {
        ClearKeepsLinks(mem, root, level, s, TableAt(mem, root, l + 1, n).value, Index(l + 1, n));
      }
      assert TableAt(Cleared(mem, s), root, l, n) == TableAt(mem, root, l, n);
    }
  }

  lemma {:induction false} UnmapKeeps(mem: Mem, root: nat, level: map<nat, nat>, n: nat, m: nat)
    requires Tree(mem, root, level)
    ensures Tree(Unmap(mem, root, n, m).mem, root, level)
    ensures forall l, p: nat :: 0 <= l <= 3 ==>
              TableAt(Unmap(mem, root, n, m).mem, root, l, p) == TableAt(mem, root, l, p)
    decreases m - n
  {
    if n < m {
      var first := UnmapPage(mem, root, n);
      if Leaf(mem, root, n).Some? {
        var s := Leaf(mem, root, n).value;
        LeafIsEntry(mem, root, level, n);
        ClearKeepsTree(mem, root, level, s);
        forall l, p: nat | 0 <= l <= 3 ensures TableAt(first.mem, root, l, p) == TableAt(mem, root, l, p) {
          ClearKeepsTables(mem, root, level, s, l, p);
        }
      }
      UnmapKeeps(first.mem, root, level, n + 1, m);
    }
  }

  // ----- ranges -----

  lemma FirstPage(mem: Mem, root: nat, n: nat, m: nat)
    requires n < m
    ensures var first := UnmapPage(mem, root, n);
            var rest := Unmap(first.mem, root, n + 1, m);
            Unmap(mem, root, n, m) == Outcome(rest.mem, first.dropped + rest.dropped)
  {
  }

  lemma NothingToUnmap(mem: Mem, root: nat, n: nat, m: nat)
    requires n >= m
    ensures Unmap(mem, root, n, m) == Outcome(mem, [])
  {
  }

  lemma {:induction false} UnmapInTwo(mem: Mem, root: nat, a: nat, b: nat, c: nat)
    requires a <= b <= c
    ensures var o := Unmap(mem, root, a, b);
            var o' := Unmap(o.mem, root, b, c);
            Unmap(mem, root, a, c) == Outcome(o'.mem, o.dropped + o'.dropped)
    decreases b - a
  {
    hide UnmapPage, Unmap;
    if a < b {
      FirstPage(mem, root, a, b);
      FirstPage(mem, root, a, c);
      var first := UnmapPage(mem, root, a);
      UnmapInTwo(first.mem, root, a + 1, b, c);
      var rest := Unmap(first.mem, root, a + 1, b);
      var o' := Unmap(rest.mem, root, b, c);
      assert first.dropped + (rest.dropped + o'.dropped) == (first.dropped + rest.dropped) + o'.dropped;
    } else {
      NothingToUnmap(mem, root, a, b);
      var o' := Unmap(mem, root, b, c);
      assert [] + o'.dropped == o'.dropped;
    }
  }

  lemma {:induction false} VisitedInTwo(mem: Mem, root: nat, a: nat, b: nat, c: nat)
    requires a <= b <= c
    ensures Visited(mem, root, a, c) == Visited(mem, root, a, b) + Visited(mem, root, b, c)
    decreases b - a
  {
    if a < b {
      VisitedInTwo(mem, root, a + 1, b, c);
    }
  }

  lemma {:induction false} UnmapNothing(mem: Mem, root: nat, a: nat, b: nat)
    requires forall n: nat :: a <= n < b ==> Leaf(mem, root, n) == None
    ensures Unmap(mem, root, a, b) == Outcome(mem, [])
    decreases b - a
  {
    if a < b {
      assert Leaf(mem, root, a) == None;
      UnmapNothing(mem, root, a + 1, b);
    }
  }

  lemma {:induction false} VisitNothing(mem: Mem, root: nat, a: nat, b: nat)
    requires forall n: nat :: a <= n < b ==> TableAt(mem, root, 0, n) == None
    ensures Visited(mem, root, a, b) == []
    decreases b - a
  {
    if a < b {
      assert TableAt(mem, root, 0, a) == None;
      VisitNothing(mem, root, a + 1, b);
    }
  }

  // ----- indices -----

  lemma PagesAre()
    ensures Pages(0) == 1 && Pages(1) == 512 && Pages(2) == 262144 && Pages(3) == 134217728 && Pages(4) == 68719476736
  {
    assert Pages(2) == 512 * 512;
    assert Pages(3) == 512 * 262144;
    assert Pages(4) == 512 * 134217728;
  }

  lemma QuotientUp(n: nat, l: nat)
    requires l <= 3
    ensures n / Pages(l + 1) == n / Pages(l) / ENTRIES
  {
    PagesAre();
    if l == 0 {
    } else if l == 1 {
      assert n / 262144 == n / 512 / 512;
    } else if l == 2 {
      assert n / 134217728 == n / 262144 / 512;
    } else {
      assert n / 68719476736 == n / 134217728 / 512;
    }
  }

  lemma {:induction false} SameQuotientUp(n: nat, m: nat, l: nat, j: nat)
    requires l <= j <= 4 && n / Pages(l) == m / Pages(l)
    ensures n / Pages(j) == m / Pages(j)
    decreases j - l
  {
    if l < j {
      QuotientUp(n, l);
      QuotientUp(m, l);
      SameQuotientUp(n, m, l + 1, j);
    }
  }

  lemma InSpan(l: nat, n: nat, m: nat)
    requires l <= 3 && n <= m < NextPage(l, n)
    ensures n / Pages(l) == m / Pages(l)
  {
    PagesAre();
    if l == 0 {
    } else if l == 1 {
      assert n / 512 == m / 512;
    } else if l == 2 {
      assert n / 262144 == m / 262144;
    } else {
      assert n / 134217728 == m / 134217728;
    }
  }

  /** Pages with the same quotient have the same tables from that level down. */
  lemma {:induction false} SameTable(mem: Mem, root: nat, l: nat, n: nat, m: nat)
    requires l <= 3 && n / Pages(l + 1) == m / Pages(l + 1)
    ensures TableAt(mem, root, l, n) == TableAt(mem, root, l, m)
    decreases 3 - l
  {
    if l < 3 {
      SameQuotientUp(n, m, l + 1, l + 2);
      SameTable(mem, root, l + 1, n, m);
    }
  }

  /** The pages that one entry stands for have the same tables down to that
      entry, and the same table below it. */
  lemma SameEntry(mem: Mem, root: nat, l: nat, n: nat, m: nat)
    requires l <= 3 && n <= m < NextPage(l, n)
    ensures TableAt(mem, root, l, n) == TableAt(mem, root, l, m) && Index(l, n) == Index(l, m)
    ensures l > 0 ==> TableAt(mem, root, l - 1, n) == TableAt(mem, root, l - 1, m)
  {
    InSpan(l, n, m);
    SameQuotientUp(n, m, l, l + 1);
    SameTable(mem, root, l, n, m);
    if l > 0 {
      SameTable(mem, root, l - 1, n, m);
    }
  }

  // ----- what an unmapping leaves -----

  /** Clearing one leaf unmaps the pages it maps and no others. */
  lemma ClearedLeaf(mem: Mem, root: nat, level: map<nat, nat>, s: Slot, p: nat)
    requires Tree(mem, root, level) && IsLeaf(mem, level, s)
    ensures Leaf(Cleared(mem, s), root, p) == if Leaf(mem, root, p) == Some(s) then None else Leaf(mem, root, p)
  {
    ClearKeepsTables(mem, root, level, s, 0, p);
    ClearKeepsTables(mem, root, level, s, 1, p);
    TableAtLevel(mem, root, level, 0, p);
    TableAtLevel(mem, root, level, 1, p);
  }

  /** The entries that map the pages in a range. */
  ghost function Leaves(mem: Mem, root: nat, n: nat, m: nat): set<Slot> {
    set p: nat | n <= p < m && Leaf(mem, root, p).Some? :: Leaf(mem, root, p).value
  }

  lemma FirstUnmapped(mem: Mem, root: nat, level: map<nat, nat>, n: nat, m: nat)
    requires Tree(mem, root, level) && n < m
    ensures var mem' := UnmapPage(mem, root, n).mem;
            && Tree(mem', root, level)
            && match Leaf(mem, root, n)
               case None => mem' == mem && Leaves(mem, root, n, m) == Leaves(mem, root, n + 1, m)
               case Some(s) =>
                 && IsLeaf(mem, level, s) && mem' == Cleared(mem, s)
                 && Leaves(mem, root, n, m) == Leaves(mem', root, n + 1, m) + {s}
                 && s !in Leaves(mem', root, n + 1, m)
  {
    if Leaf(mem, root, n).Some? {
      var s := Leaf(mem, root, n).value;
      LeafIsEntry(mem, root, level, n);
      ClearKeepsTree(mem, root, level, s);
      forall p: nat
        ensures Leaf(Cleared(mem, s), root, p) == if Leaf(mem, root, p) == Some(s) then None else Leaf(mem, root, p)
      {
        ClearedLeaf(mem, root, level, s, p);
      }
    }
  }

  lemma FullTable(mem: Mem, root: nat, level: map<nat, nat>, f: nat)
    requires Tree(mem, root, level) && f in mem
    ensures |mem[f]| == ENTRIES
  {
  }

  /** What the first page does to one entry. */
  lemma FirstClears(mem: Mem, root: nat, level: map<nat, nat>, n: nat, m: nat, f: nat, i: nat)
    requires Tree(mem, root, level) && n < m && f in mem && i < ENTRIES
    ensures var mem' := UnmapPage(mem, root, n).mem;
            && Tree(mem', root, level) && mem'.Keys == mem.Keys
            && Unmap(mem, root, n, m).mem == Unmap(mem', root, n + 1, m).mem
            && |mem[f]| == |mem'[f]| == ENTRIES
            && (Slot(f, i) in Leaves(mem, root, n, m) ==> Slot(f, i) in Leaves(mem', root, n + 1, m) || mem'[f][i] == 0)
            && (Slot(f, i) !in Leaves(mem, root, n, m) ==>
                  Slot(f, i) !in Leaves(mem', root, n + 1, m) && mem'[f][i] == mem[f][i])
  {
    FullTable(mem, root, level, f);
    hide Tree, Leaf, Leaves, UnmapPage, Unmap, Huge;
    FirstPage(mem, root, n, m);
    FirstUnmapped(mem, root, level, n, m);
  }

  /** Exactly the entries that mapped a page in the range are cleared; every
      other entry of every table is as it was. */
  lemma {:induction false} UnmapClears(mem: Mem, root: nat, level: map<nat, nat>, n: nat, m: nat, f: nat, i: nat)
    requires Tree(mem, root, level) && f in mem && i < ENTRIES
    ensures Unmap(mem, root, n, m).mem.Keys == mem.Keys && |Unmap(mem, root, n, m).mem[f]| == ENTRIES
    ensures Unmap(mem, root, n, m).mem[f][i] == if Slot(f, i) in Leaves(mem, root, n, m) then 0 else mem[f][i]
    decreases m - n
  {
    assert n >= m ==> Leaves(mem, root, n, m) == {};
    hide Tree, Leaves, UnmapPage, Unmap;
    if n < m {
      FirstClears(mem, root, level, n, m, f, i);
      UnmapClears(UnmapPage(mem, root, n).mem, root, level, n + 1, m, f, i);
    } else {
      FullTable(mem, root, level, f);
      NothingToUnmap(mem, root, n, m);
    }
  }

  /** The first page is unmapped, and no page is newly mapped. */
  lemma FirstLosesLeaf(mem: Mem, root: nat, level: map<nat, nat>, n: nat, p: nat)
    requires Tree(mem, root, level)
    ensures Tree(UnmapPage(mem, root, n).mem, root, level)
    ensures p == n || Leaf(mem, root, p) == None ==> Leaf(UnmapPage(mem, root, n).mem, root, p) == None
  {
    FirstUnmapped(mem, root, level, n, n + 1);
    if Leaf(mem, root, n).Some? {
      ClearedLeaf(mem, root, level, Leaf(mem, root, n).value, p);
    }
  }

  /** No page in the range is mapped any more, and no page is newly mapped. */
  lemma {:induction false} UnmapLeavesNoLeaf(mem: Mem, root: nat, level: map<nat, nat>, n: nat, m: nat, p: nat)
    requires Tree(mem, root, level)
    ensures n <= p < m || Leaf(mem, root, p) == None ==> Leaf(Unmap(mem, root, n, m).mem, root, p) == None
    decreases m - n
  {
    hide Tree, Leaf, UnmapPage;
    if n < m {
      FirstLosesLeaf(mem, root, level, n, p);
      UnmapLeavesNoLeaf(UnmapPage(mem, root, n).mem, root, level, n + 1, m, p);
    }
  }

  ghost function PointingAt(mem: Mem, ss: set<Slot>, x: nat): set<Slot> {
    set s | s in ss && s.frame in mem && s.index < |mem[s.frame]| && Frame(mem[s.frame][s.index]) == x
  }

  function Count(xs: seq<nat>, x: nat): nat {
    if xs == [] then 0 else (if xs[0] == x then 1 else 0) + Count(xs[1..], x)
  }

  lemma {:induction false} CountConcat(xs: seq<nat>, ys: seq<nat>, x: nat)
    ensures Count(xs + ys, x) == Count(xs, x) + Count(ys, x)
  {
    if xs == [] {
      assert xs + ys == ys;
    } else {
      assert (xs + ys)[1..] == xs[1..] + ys;
      CountConcat(xs[1..], ys, x);
    }
  }

  lemma PointingMore(mem: Mem, ss: set<Slot>, s: Slot, x: nat)
    requires s !in ss && s.frame in mem && s.index < |mem[s.frame]|
    ensures PointingAt(Cleared(mem, s), ss, x) == PointingAt(mem, ss, x)
    ensures |PointingAt(mem, ss + {s}, x)| ==
            |PointingAt(mem, ss, x)| + if Frame(mem[s.frame][s.index]) == x then 1 else 0
  {
    hide Frame;
    var e := mem[s.frame][s.index];
    assert PointingAt(mem, ss + {s}, x) == PointingAt(mem, ss, x) + if Frame(e) == x then {s} else {};
  }

  /** A frame loses one reference for each entry that pointed at it, however
      many pages a huge entry maps. */
  lemma {:induction false} DropsPerEntry(mem: Mem, root: nat, level: map<nat, nat>, n: nat, m: nat, x: nat)
    requires Tree(mem, root, level)
    ensures Count(Unmap(mem, root, n, m).dropped, x) == |PointingAt(mem, Leaves(mem, root, n, m), x)|
    decreases m - n
  {
    hide Tree, Frame, Leaf, Cleared;
    if n >= m {
      assert PointingAt(mem, Leaves(mem, root, n, m), x) == {};
    } else {
      hide Leaves, PointingAt;
      FirstUnmapped(mem, root, level, n, m);
      var first := UnmapPage(mem, root, n);
      DropsPerEntry(first.mem, root, level, n + 1, m, x);
      CountConcat(first.dropped, Unmap(first.mem, root, n + 1, m).dropped, x);
      if Leaf(mem, root, n).Some? {
        PointingMore(mem, Leaves(first.mem, root, n + 1, m), Leaf(mem, root, n).value, x);
      }
    }
  }

  // ----- the pages outside the range -----

  /** No table is reached for pages of the 48-bit address space that differ above
      its level. */
  ghost predicate Unshared(mem: Mem, root: nat) {
    forall l, n: nat, m: nat ::
      0 <= l <= 3 && n < Pages(4) && m < Pages(4) &&
      TableAt(mem, root, l, n).Some? && TableAt(mem, root, l, n) == TableAt(mem, root, l, m)
      ==> n / Pages(l + 1) == m / Pages(l + 1)
  }

  lemma SameIndex(l: nat, n: nat, m: nat)
    requires l <= 3 && n / Pages(l + 1) == m / Pages(l + 1) && Index(l, n) == Index(l, m)
    ensures n / Pages(l) == m / Pages(l)
  {
    QuotientUp(n, l);
    QuotientUp(m, l);
  }

  /** In a tree without shared tables a leaf maps one page, or, if it is huge,
      the pages of one page directory entry. */
  lemma SameLeaf(mem: Mem, root: nat, level: map<nat, nat>, n: nat, m: nat)
    requires Tree(mem, root, level) && Unshared(mem, root)
    requires n < Pages(4) && m < Pages(4)
    requires Leaf(mem, root, n).Some? && Leaf(mem, root, n) == Leaf(mem, root, m)
    ensures n / Pages(1) == m / Pages(1)
    ensures TableAt(mem, root, 0, n).Some? ==> n == m
  {
    TableAtLevel(mem, root, level, 0, n);
    TableAtLevel(mem, root, level, 0, m);
    TableAtLevel(mem, root, level, 1, n);
    TableAtLevel(mem, root, level, 1, m);
    var l := if TableAt(mem, root, 0, n).Some? then 0 else 1;
    assert TableAt(mem, root, l, n) == TableAt(mem, root, l, m);
    SameIndex(l, n, m);
    PagesAre();
  }

  lemma QuotientGap(q: nat, m: nat, p: nat)
    requires q < m && NextPage(1, m - 1) <= p
    ensures q < p && q / Pages(1) < p / Pages(1)
  {
    PagesAre();
  }

  /** A page beyond the last page directory entry touched stays mapped as it
      was, by the same entry with the same contents. */
  lemma BeyondIsKept(mem: Mem, root: nat, level: map<nat, nat>, n: nat, m: nat, p: nat)
    requires Tree(mem, root, level) && Unshared(mem, root)
    requires n < m && NextPage(1, m - 1) <= p < Pages(4)
    ensures var mem' := Unmap(mem, root, n, m).mem;
            && Leaf(mem', root, p) == Leaf(mem, root, p)
            && (Leaf(mem, root, p).Some? ==>
                  var s := Leaf(mem, root, p).value;
                  s.frame in mem' && s.index < |mem'[s.frame]| && mem'[s.frame][s.index] == mem[s.frame][s.index])
  {
    var mem' := Unmap(mem, root, n, m).mem;
    UnmapKeeps(mem, root, level, n, m);
    if Leaf(mem, root, p) == None {
      UnmapLeavesNoLeaf(mem, root, level, n, m, p);
    } else {
      var s := Leaf(mem, root, p).value;
      LeafIsEntry(mem, root, level, p);
      forall q: nat | n <= q < m && Leaf(mem, root, q).Some? ensures Leaf(mem, root, q) != Leaf(mem, root, p) {
        if Leaf(mem, root, q) == Leaf(mem, root, p) {
          QuotientGap(q, m, p);
          SameLeaf(mem, root, level, q, p);
        }
      }
      UnmapClears(mem, root, level, n, m, s.frame, s.index);
    }
  }

  lemma MulShifts(q: nat, k: nat, s: nat, t: nat)
    ensures q * (k * s) + t * s == (q * k + t) * s
  {
  }

  lemma DivShifts(q: nat, k: nat, s: nat, r: nat)
    requires s > 0
    ensures (q * (k * s) + r) / s == q * k + r / s
  {
    QuotientAndRest(r, s);
    MulShifts(q, k, s, r / s);
    DivUnique(q * (k * s) + r, s, q * k + r / s, r % s);
  }

  lemma WholeEntries(q: nat, k: nat, t: nat)
    requires k % ENTRIES == 0
    ensures (q * k + t) % ENTRIES == t % ENTRIES
  {
    var j := k / ENTRIES;
    assert q * k == (q * j) * ENTRIES;
  }

  /** Addresses are looked up modulo 2^48: pages that differ by a multiple of
      Pages(4) have the same tables and the same leaf. */
  lemma IndexWraps(l: nat, p: nat)
    requires l <= 3
    ensures Index(l, p % Pages(4)) == Index(l, p)
  {
    PagesAre();
    var q, r := p / Pages(4), p % Pages(4);
    var k := if l == 0 then 68719476736 else if l == 1 then 134217728 else if l == 2 then 262144 else 512;
    assert Pages(4) == k * Pages(l) && k % ENTRIES == 0;
    DivShifts(q, k, Pages(l), r);
    QuotientAndRest(p, Pages(4));
    WholeEntries(q, k, r / Pages(l));
  }

  lemma {:induction false} TableWraps(mem: Mem, root: nat, l: nat, p: nat)
    requires l <= 3
    ensures TableAt(mem, root, l, p % Pages(4)) == TableAt(mem, root, l, p)
    decreases 3 - l
  {
    if l < 3 {
      TableWraps(mem, root, l + 1, p);
      IndexWraps(l + 1, p);
    }
  }

  lemma LeafWraps(mem: Mem, root: nat, p: nat)
    ensures Leaf(mem, root, p % Pages(4)) == Leaf(mem, root, p)
  {
    TableWraps(mem, root, 0, p);
    TableWraps(mem, root, 1, p);
    IndexWraps(0, p);
    IndexWraps(1, p);
  }

  /** The leaf of page p is the same entry, with the same contents. */
  ghost predicate KeptPage(mem: Mem, mem': Mem, root: nat, p: nat) {
    && Leaf(mem', root, p) == Leaf(mem, root, p)
    && (Leaf(mem, root, p).Some? ==>
          var s := Leaf(mem, root, p).value;
          && s.frame in mem && s.frame in mem' && s.index < |mem[s.frame]| && s.index < |mem'[s.frame]|
          && mem'[s.frame][s.index] == mem[s.frame][s.index])
  }

  /** So is that of every page that the tables see from lo on; this includes the
      sign-extended addresses of an upper half. */
  ghost predicate KeptFrom(mem: Mem, mem': Mem, root: nat, lo: nat) {
    forall p: nat :: lo <= p % Pages(4) ==> KeptPage(mem, mem', root, p)
  }

  lemma BeyondAreKept(mem: Mem, root: nat, level: map<nat, nat>, n: nat, m: nat, lo: nat)
    requires Tree(mem, root, level) && Unshared(mem, root)
    requires n < m && NextPage(1, m - 1) <= lo
    ensures KeptFrom(mem, Unmap(mem, root, n, m).mem, root, lo)
  {
    var mem' := Unmap(mem, root, n, m).mem;
    forall p: nat | lo <= p % Pages(4) ensures KeptPage(mem, mem', root, p) {
      var q := p % Pages(4);
      BeyondIsKept(mem, root, level, n, m, q);
      LeafWraps(mem, root, p);
      LeafWraps(mem', root, p);
      if Leaf(mem, root, q).Some? {
        LeafIsEntry(mem, root, level, q);
      }
    }
  }

  /** Exactly the pages whose entry mapped a page of the range are unmapped. */
  lemma {:induction false} UnmapLeaf(mem: Mem, root: nat, level: map<nat, nat>, n: nat, m: nat, p: nat)
    requires Tree(mem, root, level)
    ensures Leaf(Unmap(mem, root, n, m).mem, root, p) ==
            if Leaf(mem, root, p).Some? && Leaf(mem, root, p).value in Leaves(mem, root, n, m) then None
            else Leaf(mem, root, p)
    decreases m - n
  {
    assert n >= m ==> Leaves(mem, root, n, m) == {};
    hide Tree, Leaf, Leaves, UnmapPage, Unmap, IsLeaf, Cleared;
    if n < m {
      FirstPage(mem, root, n, m);
      FirstUnmapped(mem, root, level, n, m);
      UnmapLeaf(UnmapPage(mem, root, n).mem, root, level, n + 1, m, p);
      if Leaf(mem, root, n).Some? {
        ClearedLeaf(mem, root, level, Leaf(mem, root, n).value, p);
      }
    } else {
      NothingToUnmap(mem, root, n, m);
    }
  }

  /** Unmapping up to stop instead of m is exact just when the pages in between
      are mapped by no entry but those that map a page of the range. */
  lemma ExactIff(mem: Mem, root: nat, level: map<nat, nat>, n: nat, m: nat, stop: nat)
    requires Tree(mem, root, level) && n <= m <= stop
    ensures Unmap(mem, root, n, stop).mem == Unmap(mem, root, n, m).mem <==>
            forall p: nat :: m <= p < stop && Leaf(mem, root, p).Some? ==>
              Leaf(mem, root, p).value in Leaves(mem, root, n, m)
  {
    UnmapInTwo(mem, root, n, m, stop);
    var mid := Unmap(mem, root, n, m).mem;
    UnmapKeeps(mem, root, level, n, m);
    hide Leaf, Leaves, Unmap, Tree;
    forall p: nat
      ensures Leaf(mid, root, p) ==
              if Leaf(mem, root, p).Some? && Leaf(mem, root, p).value in Leaves(mem, root, n, m) then None
              else Leaf(mem, root, p)
    {
      UnmapLeaf(mem, root, level, n, m, p);
    }
    if forall p: nat :: m <= p < stop ==> Leaf(mid, root, p) == None {
      UnmapNothing(mid, root, m, stop);
    } else {
      var p: nat :| m <= p < stop && Leaf(mid, root, p) != None;
      UnmapLeavesNoLeaf(mid, root, level, m, stop, p);
    }
  }

  // ----- addresses -----

  /** ptbl_end, pdir_end, pdpt_end and pml4_end, by level: the last address that
      the entry for addr stands for. */
  function TableEnd(level: nat, addr: nat): nat
    requires level <= 3
  {
    Or(addr, PAGE_SIZE * Pages(level) - 1)
  }

  /** PAGE_TABLE_INDEX, PAGE_DIR_INDEX, PDPT_INDEX and PML4_INDEX, by level. */
  function EntryIndex(level: nat, addr: nat): nat
    requires level <= 3
  {
    And(Shr(addr, 12 + 9 * level), ENTRIES - 1)
  }

  lemma {:induction false} PagesIsPow2(level: nat)
    requires level <= 3
    ensures Pow2(9 * level) == Pages(level) && Pow2(12 + 9 * level) == PAGE_SIZE * Pages(level)
  {
    if level > 0 {
      PagesIsPow2(level - 1);
      Pow2Add(9, 9 * (level - 1));
      assert Pow2(9) == ENTRIES;
    }
    Pow2Add(12, 9 * level);
    assert Pow2(12) == PAGE_SIZE;
  }

  lemma PageOf(level: nat, addr: nat)
    requires level <= 3
    ensures Shr(addr, 12 + 9 * level) == (addr / PAGE_SIZE) / Pages(level)
  {
    assert Pow2(12) == PAGE_SIZE;
    ShrAdd(addr, 12, 9 * level);
    ShrIsDiv(addr, 12);
    ShrIsDiv(addr / PAGE_SIZE, 9 * level);
    PagesIsPow2(level);
  }

  lemma EntryIndexIs(level: nat, addr: nat)
    requires level <= 3
    ensures EntryIndex(level, addr) == Index(level, addr / PAGE_SIZE)
  {
    PageOf(level, addr);
    assert Pow2(9) == ENTRIES;
    ShrIsDiv(Shr(addr, 12 + 9 * level), 9);
  }

  lemma Regroup(q: nat, p: nat)
    ensures q * (PAGE_SIZE * p) + PAGE_SIZE * p == ((q + 1) * p) * PAGE_SIZE
  {
  }

  lemma TableEndIs(level: nat, addr: nat)
    requires level <= 3
    ensures TableEnd(level, addr) + 1 == NextPage(level, addr / PAGE_SIZE) * PAGE_SIZE
  {
    var k := 12 + 9 * level;
    PagesIsPow2(level);
    OrMask(addr, k);
    ShlIsTimes(Shr(addr, k), k);
    PageOf(level, addr);
    Regroup((addr / PAGE_SIZE) / Pages(level), Pages(level));
  }

  lemma OnePage(mem: Mem, root: nat, n: nat)
    ensures Unmap(mem, root, n, n + 1) == UnmapPage(mem, root, n)
  {
    var f := UnmapPage(mem, root, n);
    assert Unmap(f.mem, root, n + 1, n + 1) == Outcome(f.mem, []);
    assert f.dropped + [] == f.dropped;
  }

  lemma OneLeaf(mem: Mem, root: nat, n: nat)
    ensures Leaves(mem, root, n, n + 1) == if Leaf(mem, root, n).Some? then {Leaf(mem, root, n).value} else {}
  {
  }

  /** page_remove asks for one page but unmaps up to the end of its PML4 entry:
      this is exact just when that span maps nothing but the entry of the page. */
  lemma RemoveExactIff(mem: Mem, root: nat, level: map<nat, nat>, n: nat)
    requires Tree(mem, root, level)
    ensures Unmap(mem, root, n, NextPage(3, n)).mem == UnmapPage(mem, root, n).mem <==>
            forall p: nat :: n <= p < NextPage(3, n) ==>
              Leaf(mem, root, p) == None || Leaf(mem, root, p) == Leaf(mem, root, n)
  {
    hide Tree, Unmap, UnmapPage, NextPage, Leaf, Leaves;
    OneLeaf(mem, root, n);
    ExactIff(mem, root, level, n, n + 1, NextPage(3, n));
    OnePage(mem, root, n);
  }

  /** A table with two entries and nothing else. */
  function Pair(e: nat, e': nat): (t: seq<nat>)
    ensures |t| == ENTRIES && t[0] == e && t[1] == e' && forall i :: 2 <= i < ENTRIES ==> t[i] == 0
  {
    [e, e'] + seq(ENTRIES - 2, _ => 0)
  }

  /** A tree with one table of each level that maps the first two pages, present,
      writable and for the user. */
  function TwoPages(): Mem {
    map[1 := Pair(0x2007, 0), 2 := Pair(0x3007, 0), 3 := Pair(0x4007, 0), 4 := Pair(0x5007, 0x6007)]
  }

  lemma Masks()
    ensures Pow2(1) == 2 && Pow2(7) == PAGE_HUGE && Pow2(12) == PAGE_SIZE
    ensures Pow2(36) == 0x10_0000_0000 && (Pow2(36) - 1) * PAGE_SIZE == ADDRESS_BITS
  {
    assert Pow2(6) == 64;
    Pow2Add(6, 6);
    Pow2Add(12, 12);
    Pow2Add(24, 12);
  }

  lemma HugeBit(e: nat)
    ensures And(e, PAGE_HUGE) == e / 128 % 2 * 128
  {
    var q, low := e / 128, e % 128;
    Masks();
    hide And, Pow2, Shl, Shr;
    ShlIsTimes(q, 7);
    ShlIsTimes(1, 7);
    ShlIsTimes(And(q, 1), 7);
    ShrIsDiv(q, 1);
    AndHigh(q, 1, low, 7);
  }

  lemma AddressBits(e: nat)
    ensures And(e, ADDRESS_BITS) == e / 4096 % 0x10_0000_0000 * 4096
  {
    var q, low := e / 4096, e % 4096;
    Masks();
    hide And, Pow2, Shl, Shr;
    ShlIsTimes(q, 12);
    ShlIsTimes(Pow2(36) - 1, 12);
    ShlIsTimes(And(q, Pow2(36) - 1), 12);
    ShrIsDiv(q, 36);
    AndHigh(q, Pow2(36) - 1, low, 12);
  }

  /** What an entry says, whatever other flags it carries: bit 0 that it is
      present, bit 7 that it is huge, bits 12 to 47 which frame it leads to. */
  lemma EntryBits(e: nat)
    ensures Present(e) <==> e % 2 == 1
    ensures Huge(e) <==> e / 128 % 2 == 1
    ensures PageAddr(e) == e / 4096 % 0x10_0000_0000 * 4096 && Frame(e) == e / 4096 % 0x10_0000_0000
  {
    Masks();
    HugeBit(e);
    AddressBits(e);
    hide And, Pow2;
    ShrIsDiv(e, 1);
  }

  /** Where the i-th entry of a table leads: to a frame, if its present bit is
      set and its huge bit is not. */
  function LeadsTo(mem: Mem, t: Option<nat>, i: nat): Option<nat> {
    if t.Some? && t.value in mem && i < |mem[t.value]| then
      var e := mem[t.value][i];
      if e % 2 == 1 && e / 128 % 2 == 0 then Some(e / 4096 % 0x10_0000_0000) else None
    else None
  }

  /** The entry that maps page n, looked up bit by bit through the four tables. */
  function LookUp(mem: Mem, root: nat, n: nat): Option<Slot> {
    var pd := LeadsTo(mem, LeadsTo(mem, Some(root), n / 0x800_0000 % 512), n / 0x4_0000 % 512);
    var pt := LeadsTo(mem, pd, n / 512 % 512);
    if pt.Some? then
      if pt.value in mem && n % 512 < |mem[pt.value]| && mem[pt.value][n % 512] % 2 == 1
      then Some(Slot(pt.value, n % 512)) else None
    else if pd.Some? && pd.value in mem && n / 512 % 512 < |mem[pd.value]| then
      var e := mem[pd.value][n / 512 % 512];
      if e % 2 == 1 && e / 128 % 2 == 1 then Some(Slot(pd.value, n / 512 % 512)) else None
    else None
  }

  lemma TableStep(mem: Mem, root: nat, l: nat, n: nat)
    requires l < 3
    ensures TableAt(mem, root, l, n) == LeadsTo(mem, TableAt(mem, root, l + 1, n), Index(l + 1, n))
  {
    hide Present, Huge, Frame, Index;
    var t, i := TableAt(mem, root, l + 1, n), Index(l + 1, n);
    if t.Some? && t.value in mem && i < |mem[t.value]| {
      EntryBits(mem[t.value][i]);
    }
  }

  lemma IndicesAre(n: nat)
    ensures Index(3, n) == n / 0x800_0000 % 512 && Index(2, n) == n / 0x4_0000 % 512
    ensures Index(1, n) == n / 512 % 512 && Index(0, n) == n % 512
  {
    PagesAre();
  }

  lemma RootTable(mem: Mem, root: nat, n: nat)
    ensures TableAt(mem, root, 3, n) == Some(root)
  {
  }

  /** The leaf of the reference is what the hardware's walk finds. */
  lemma LeafIsLookUp(mem: Mem, root: nat, n: nat)
    ensures Leaf(mem, root, n) == LookUp(mem, root, n)
  {
    hide Present, Huge, Frame, Index, LeadsTo, TableAt;
    IndicesAre(n);
    assert TableAt(mem, root, 3, n) == Some(root) by {
      RootTable(mem, root, n);
    }
    TableStep(mem, root, 2, n);
    TableStep(mem, root, 1, n);
    TableStep(mem, root, 0, n);
    var pt, pd := TableAt(mem, root, 0, n), TableAt(mem, root, 1, n);
    if pt.Some? && pt.value in mem && n % 512 < |mem[pt.value]| {
      EntryBits(mem[pt.value][n % 512]);
    }
    if pd.Some? && pd.value in mem && n / 512 % 512 < |mem[pd.value]| {
      EntryBits(mem[pd.value][n / 512 % 512]);
    }
  }

  lemma SmallEntries()
    ensures !Present(0)
    ensures Present(0x2007) && !Huge(0x2007) && Frame(0x2007) == 2
    ensures Present(0x3007) && !Huge(0x3007) && Frame(0x3007) == 3
    ensures Present(0x4007) && !Huge(0x4007) && Frame(0x4007) == 4
    ensures Present(0x5007) && Frame(0x5007) == 5
    ensures Present(0x6007) && Frame(0x6007) == 6
  {
    hide Present, Huge, Frame, PageAddr;
    EntryBits(0);
    EntryBits(0x2007);
    EntryBits(0x3007);
    EntryBits(0x4007);
    EntryBits(0x5007);
    EntryBits(0x6007);
  }

  lemma TwoPagesIsTree()
    ensures Tree(TwoPages(), 1, map[1 := 3, 2 := 2, 3 := 1, 4 := 0])
  {
    hide Present, Huge, Frame;
    SmallEntries();
  }

  lemma {:induction false} TwoPagesTable(l: nat, n: nat)
    requires l <= 3 && n < Pages(4)
    ensures TableAt(TwoPages(), 1, l, n) == if n / Pages(l + 1) == 0 then Some(4 - l) else None
    decreases 3 - l
  {
    hide Present, Huge, Frame;
    SmallEntries();
    PagesAre();
    if l < 3 {
      TwoPagesTable(l + 1, n);
      QuotientUp(n, l + 1);
    }
  }

  /** Its tables are not shared. */
  lemma TwoPagesUnshared()
    ensures Unshared(TwoPages(), 1)
  {
    forall l, n: nat, m: nat | 0 <= l <= 3 && n < Pages(4) && m < Pages(4)
      && TableAt(TwoPages(), 1, l, n).Some? && TableAt(TwoPages(), 1, l, n) == TableAt(TwoPages(), 1, l, m)
      ensures n / Pages(l + 1) == m / Pages(l + 1)
    {
      TwoPagesTable(l, n);
      TwoPagesTable(l, m);
    }
  }

  lemma TwoPagesEntries()
    ensures var mem := TwoPages();
            && 3 in mem && 4 in mem && |mem[3]| == |mem[4]| == ENTRIES && mem[4][0] == 0x5007 && mem[4][1] == 0x6007
            && (forall i :: 2 <= i < ENTRIES ==> mem[4][i] == 0)
            && (forall i :: 1 <= i < ENTRIES ==> mem[3][i] == 0)
  {
  }

  lemma SmallIndex(n: nat)
    ensures n / Pages(1) == 0 <==> n < 512
    ensures n / Pages(2) == 0 <==> n < 262144
    ensures n < 512 ==> Index(0, n) == n
    ensures 512 <= n < 262144 ==> Index(1, n) >= 1
  {
    PagesAre();
  }

  lemma TwoPagesLeaf(n: nat)
    requires n < Pages(4)
    ensures Leaf(TwoPages(), 1, n) == if n < 2 then Some(Slot(4, n)) else None
  {
    hide TableAt, Present, Huge, Frame, Pages, TwoPages, Index;
    TwoPagesTable(0, n);
    TwoPagesTable(1, n);
    TwoPagesEntries();
    SmallIndex(n);
    SmallEntries();
  }

  /** A range whose first page alone is mapped drops one frame. */
  lemma DropsOne(mem: Mem, root: nat, level: map<nat, nat>, n: nat, m: nat, s: Slot)
    requires Tree(mem, root, level) && n < m
    requires forall p: nat :: n <= p < m ==> Leaf(mem, root, p) == if p == n then Some(s) else None
    ensures s.frame in mem && s.index < |mem[s.frame]|
    ensures Unmap(mem, root, n, m).dropped == [Frame(mem[s.frame][s.index])]
  {
    LeafIsEntry(mem, root, level, n);
    hide Tree, Leaf, Unmap, Frame, Cleared, Present, Huge;
    FirstUnmapped(mem, root, level, n, m);
    hide IsLeaf;
    forall p: nat | n < p < m ensures Leaf(Cleared(mem, s), root, p) == None {
      ClearedLeaf(mem, root, level, s, p);
    }
    FirstPage(mem, root, n, m);
    UnmapNothing(Cleared(mem, s), root, n + 1, m);
  }

  /** A range that two entries map, each for its own page, drops their frames. */
  lemma DropsTwo(mem: Mem, root: nat, level: map<nat, nat>, m: nat, s: Slot, s': Slot)
    requires Tree(mem, root, level) && IsLeaf(mem, level, s) && 2 <= m && s != s'
    requires forall p: nat :: p < m ==>
               Leaf(mem, root, p) == if p == 0 then Some(s) else if p == 1 then Some(s') else None
    ensures s.frame in mem && s.index < |mem[s.frame]| && s'.frame in mem && s'.index < |mem[s'.frame]|
    ensures Unmap(mem, root, 0, m).dropped == [Frame(mem[s.frame][s.index]), Frame(mem[s'.frame][s'.index])]
  {
    var mem1 := Cleared(mem, s);
    LeafIsEntry(mem, root, level, 1);
    assert mem1[s'.frame][s'.index] == mem[s'.frame][s'.index];
    ClearKeepsTree(mem, root, level, s);
    hide Tree, Leaf, Unmap, Frame, Cleared, IsLeaf, Present, Huge;
    forall p: nat | p < m ensures Leaf(mem1, root, p) == if p == 1 then Some(s') else None {
      ClearedLeaf(mem, root, level, s, p);
    }
    FirstPage(mem, root, 0, m);
    DropsOne(mem1, root, level, 1, m, s');
  }

  /** Unmapping it drops the references to the two frames that it maps. */
  lemma TwoPagesDrops(m: nat)
    requires 2 <= m <= Pages(4)
    ensures Unmap(TwoPages(), 1, 0, m).dropped == [5, 6]
  {
    var mem, level := TwoPages(), map[1 := 3, 2 := 2, 3 := 1, 4 := 0];
    TwoPagesIsTree();
    TwoPagesEntries();
    assert IsLeaf(mem, level, Slot(4, 0));
    hide TwoPages, Tree, Leaf, Unmap, Frame, IsLeaf, Pages;
    SmallEntries();
    forall p: nat | p < m ensures Leaf(mem, 1, p) == if p < 2 then Some(Slot(4, p)) else None {
      TwoPagesLeaf(p);
    }
    DropsTwo(mem, 1, level, m, Slot(4, 0), Slot(4, 1));
  }

  /** There page_remove of the first page unmaps the second as well. */
  lemma RemoveOvershoots()
    ensures var mem := TwoPages();
            && Unmap(mem, 1, 0, NextPage(3, 0)).mem != UnmapPage(mem, 1, 0).mem
            && Leaf(UnmapPage(mem, 1, 0).mem, 1, 1) == Some(Slot(4, 1))
            && Leaf(Unmap(mem, 1, 0, NextPage(3, 0)).mem, 1, 1) == None
  {
    hide TwoPages, Tree, Leaf, Unmap, Cleared;
    var mem, level := TwoPages(), map[1 := 3, 2 := 2, 3 := 1, 4 := 0];
    TwoPagesIsTree();
    TwoPagesLeaf(0);
    TwoPagesLeaf(1);
    PagesAre();
    FirstUnmapped(mem, 1, level, 0, 1);
    ClearedLeaf(mem, 1, level, Slot(4, 0), 1);
    UnmapLeavesNoLeaf(mem, 1, level, 0, NextPage(3, 0), 1);
  }
}
