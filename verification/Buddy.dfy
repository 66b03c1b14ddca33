/** The buddy allocator of kernel/mem/buddy.c over the lists of lib/list.c. */
module Buddy {
  import opened Dyadic
  import opened FreeSet
  import opened Lists
  import opened Runs
  import opened Words
  import Bits

  /** --n on an unsigned 16-bit counter. */
  function Decremented(n: nat): nat {
    if n == 0 then 0xffff else n - 1
  }

  class PageInfo {
    const pp_node: Node
    var pp_ref: nat
    var pp_order: nat
    var pp_free: bool

    constructor (index: int)
      ensures fresh(pp_node) && pp_node.index == index && pp_node.next == pp_node.prev == pp_node
      ensures pp_ref == 0 && pp_order == 0 && !pp_free
    {
      pp_node := new Node(index);
      pp_ref, pp_order, pp_free := 0, 0, false;
    }
  }

  /** Page i as page_init leaves it before it frees any. */
  ghost predicate Blank(page: PageInfo, i: nat)
    reads page, page.pp_node
  {
    && page.pp_node.index == i && page.pp_node.next == page.pp_node.prev == page.pp_node
    && page.pp_ref == 0 && page.pp_order == 0 && !page.pp_free
  }

  lemma PageShift(q: nat, k: nat)
    ensures Shl(q, k + 12) == Shl(q, k) * PAGE_SIZE
    decreases k
  {
    if k == 0 {
      ShlIsTimes(q, 12);
      assert Pow2(12) == PAGE_SIZE;
    } else {
      PageShift(2 * q, k - 1);
    }
  }

  /** The physical address of the buddy of a block, as the source computes it. */
  lemma BuddyAddress(b: Block)
    requires b.Aligned()
    ensures Bits.Xor(b.start * PAGE_SIZE, Pow2(b.order) * PAGE_SIZE) == b.Buddy().start * PAGE_SIZE
  {
    var q := Shr(b.start, b.order);
    PageShift(q, b.order);
    PageShift(Flip(q), b.order);
    PageShift(1, b.order);
    ShlIsTimes(1, b.order);
    ShlIsTimes(1, b.order + 12);
    Bits.XorFlips(q, b.order + 12);
  }

  /** The first loop of page_init. */
  method NewPages(n: nat) returns (ps: seq<PageInfo>)
    ensures |ps| == n
    ensures forall i :: 0 <= i < n ==> fresh(ps[i]) && fresh(ps[i].pp_node) && Blank(ps[i], i)
  {
    ps := [];
    while |ps| < n
      invariant |ps| <= n
      invariant forall i :: 0 <= i < |ps| ==> fresh(ps[i]) && fresh(ps[i].pp_node) && Blank(ps[i], i)
    {
      var page := new PageInfo(|ps|);
      ps := ps + [page];
    }
  }

  /** list_init of every free list. */
  method NewHeads() returns (heads: seq<Node>)
    ensures |heads| == BUDDY_MAX_ORDER
    ensures forall k :: 0 <= k < BUDDY_MAX_ORDER ==>
              fresh(heads[k]) && heads[k].index == -1 - k && heads[k].next == heads[k].prev == heads[k]
  {
    heads := [];
    while |heads| < BUDDY_MAX_ORDER
      invariant |heads| <= BUDDY_MAX_ORDER
      invariant forall k :: 0 <= k < |heads| ==>
                  fresh(heads[k]) && heads[k].index == -1 - k && heads[k].next == heads[k].prev == heads[k]
    {
      var head := new Node(-1 - |heads|);
      heads := heads + [head];
    }
  }

  /** The contents of the free lists, by order. */
  type OrderLists = ls: seq<seq<Node>> | |ls| == BUDDY_MAX_ORDER witness seq(BUDDY_MAX_ORDER, _ => [])

  /** s with its first occurrence of n taken out. */
  ghost function Minus(s: seq<Node>, n: Node): seq<Node> {
    if s == [] then [] else if s[0] == n then s[1..] else [s[0]] + Minus(s[1..], n)
  }

  lemma {:induction false} MinusAt(s: seq<Node>, j: nat)
    requires j < |s| && Distinct(s)
    ensures Minus(s, s[j]) == Without(s, j)
    ensures forall n :: n in Without(s, j) <==> n in s && n != s[j]
  {
    if j > 0 {
      MinusAt(s[1..], j - 1);
      assert Without(s, j) == [s[0]] + Without(s[1..], j - 1);
    }
  }

  datatype Meta = Meta(ref: nat, order: nat, free: bool)

  /** From was to now no reference count has changed, and no order or mark of a
      page outside block b. */
  ghost predicate Kept(was: seq<Meta>, now: seq<Meta>, b: Block) {
    && |was| == |now|
    && forall i {:trigger now[i]} :: 0 <= i < |now| ==>
         now[i].ref == was[i].ref && (!b.Has(i) ==> now[i] == was[i])
  }

  lemma KeptMore(was: seq<Meta>, mid: seq<Meta>, now: seq<Meta>, b: Block, c: Block)
    requires Kept(was, mid, b) && Kept(mid, now, c)
    requires forall p: nat :: b.Has(p) ==> c.Has(p)
    ensures Kept(was, now, c)
  {
    forall i | 0 <= i < |now| ensures now[i].ref == was[i].ref && (!c.Has(i) ==> now[i] == was[i]) {
      assert mid[i].ref == was[i].ref;
    }
  }

  /** Two pages of b given new orders and marks. */
  lemma KeptTwo(was: seq<Meta>, x: nat, mx: Meta, y: nat, my: Meta, b: Block)
    requires x < |was| && y < |was| && x != y && b.Has(x) && b.Has(y)
    requires mx.ref == was[x].ref && my.ref == was[y].ref
    ensures Kept(was, was[x := mx][y := my], b)
  {
  }

  /** Two pages of b unmarked, and one of them marked again one order up. */
  lemma KeptPair(was: seq<Meta>, x: nat, h: nat, y: nat, b: Block)
    requires x < |was| && h < |was| && b.Has(x) && b.Has(h) && (y == x || y == h)
    ensures var m := was[x := Meta(was[x].ref, was[x].order, false)][h := Meta(was[h].ref, was[h].order, false)];
            Kept(was, m[y := Meta(m[y].ref, m[y].order + 1, true)], b)
  {
  }

  lemma KeptWider(was: seq<Meta>, mid: seq<Meta>, now: seq<Meta>, c: Block, b: Block)
    requires Kept(was, mid, b) && Kept(mid, now, c)
    requires forall p: nat :: c.Has(p) ==> b.Has(p)
    ensures Kept(was, now, b)
  {
    assert Kept(mid, now, b);
    KeptMore(was, mid, now, b, b);
  }

  /** Marking page x is within any block that holds it. */
  lemma KeptThroughMark(was: seq<Meta>, mid: seq<Meta>, now: seq<Meta>, x: nat, c: Block)
    requires x < |was| == |mid| && mid == was[x := Meta(was[x].ref, was[x].order, mid[x].free)]
    requires Kept(mid, now, c) && c.Has(x)
    ensures Kept(was, now, c)
  {
    KeptMore(was, mid, now, c, c);
  }

  lemma MergedHas(f: set<Block>, b: Block)
    requires Coalesced(f) && b.Aligned() && b.order <= BUDDY_MAX_ORDER && Apart(f, b)
    ensures Merge(f, b).1.Has(b.start) && Merge(f, b).1.order <= BUDDY_MAX_ORDER
  {
    MergeKeeps(f, b);
    assert b.Has(b.start);
  }

  /** A live block can be returned to the lists unless that overruns them. */
  lemma ReturnFits(s: State, b: Block, n: nat)
    requires Inv(s, n) && b in s.live
    ensures b.order < BUDDY_MAX_ORDER
    ensures Merge(s.free, b).1.order < BUDDY_MAX_ORDER <==> !Overruns(s.free, b)
  {
    LiveApart(s, n, b);
    OverrunsIffTooBig(s.free, b);
    MergedHas(s.free, b);
  }

  /** What a split started from, and the order it goes down to. */
  datatype SplitGoal = SplitGoal(r: nat, b: Block, f: set<Block>, ls: OrderLists, m: seq<Meta>)

  /** What a merge started from. */
  datatype MergeGoal = MergeGoal(b: Block, f: set<Block>, ls: OrderLists, m: seq<Meta>)

  /** The first page of every live block has its order and is not marked free. */
  ghost predicate LiveIn(bs: set<Block>, m: seq<Meta>) {
    forall b :: b in bs ==> b.start < |m| && m[b.start].order == b.order && !m[b.start].free
  }

  class Allocator {
    const pages: seq<PageInfo>
    const freeList: seq<Node>
    /** The nodes of the pages. */
    ghost const nodes: set<Node>
    /** The contents of the free lists, by order. */
    ghost var lists: OrderLists
    /** The blocks in use. */
    ghost var live: set<Block>

    ghost predicate Shape() {
      && |freeList| == BUDDY_MAX_ORDER
      && (forall i :: 0 <= i < |pages| ==> pages[i].pp_node in nodes && pages[i].pp_node.index == i)
      && (forall k :: 0 <= k < BUDDY_MAX_ORDER ==> freeList[k].index == -1 - k)
    }

    /** n is the node of a free page of order k. */
    ghost predicate Listed(n: Node, k: nat)
      reads pages
    {
      n in nodes && 0 <= n.index < |pages| && pages[n.index].pp_node == n
      && pages[n.index].pp_free && pages[n.index].pp_order == k
    }

    /** With ls on the lists and the pages xs left out: every list holds free
        pages of its order, and every page marked free is on a list. */
    ghost predicate Marked(ls: OrderLists, xs: set<int>)
      reads pages
    {
      && (forall k, n :: 0 <= k < BUDDY_MAX_ORDER && n in ls[k] ==> Listed(n, k) && n.index !in xs)
      && (forall i :: 0 <= i < |pages| && i !in xs && pages[i].pp_free ==>
            pages[i].pp_order < BUDDY_MAX_ORDER && pages[i].pp_node in ls[pages[i].pp_order])
    }

    ghost predicate IsList(k: nat)
      requires k < BUDDY_MAX_ORDER && k < |freeList|
      reads this`lists, freeList, nodes
    {
      && (forall n :: n in lists[k] ==> n in nodes)
      && Ring(freeList[k], lists[k])
    }

    ghost predicate Alone(n: Node)
      reads n
    {
      n.next == n && n.prev == n
    }

    /** The lists are rings of the pages marked free, but for the pages xs;
        these and all others are on no list. */
    ghost predicate Linked(xs: set<int>)
      reads this`lists, pages, freeList, nodes
    {
      && Shape()
      && Marked(lists, xs)
      && (forall k :: 0 <= k < BUDDY_MAX_ORDER ==> IsList(k))
      && (forall i :: 0 <= i < |pages| && (i in xs || !pages[i].pp_free) ==> Alone(pages[i].pp_node))
    }

    function BlockAt(i: nat): Block
      requires i < |pages|
      reads pages
    {
      Block(i, pages[i].pp_order)
    }

    /** The blocks on the free lists, when the pages xs are on none. */
    ghost function Free(xs: set<int>): set<Block>
      reads pages
    {
      set i | 0 <= i < |pages| && i !in xs && pages[i].pp_free :: BlockAt(i)
    }

    /** The metadata of all pages, but for the list links. */
    ghost function Metas(): (m: seq<Meta>)
      reads pages
      ensures |m| == |pages|
      ensures forall i :: 0 <= i < |pages| ==> m[i] == Meta(pages[i].pp_ref, pages[i].pp_order, pages[i].pp_free)
    {
      seq(|pages|, i requires 0 <= i < |pages| reads pages =>
        Meta(pages[i].pp_ref, pages[i].pp_order, pages[i].pp_free))
    }

    ghost function Now(): State
      reads this, pages
    {
      State(Free({}), live)
    }

    ghost predicate Valid()
      reads this, pages, freeList, nodes
    {
      && Linked({})
      && Inv(Now(), |pages|)
      && LiveIn(live, Metas())
    }

    /** Page x is off the lists and may join them with its block. */
    ghost predicate Floating(x: nat)
      reads this`lists, pages, freeList, nodes
    {
      Linked({x}) && x < |pages| && Floats(Free({x}), BlockAt(x))
    }

    lemma {:induction false} SeqSize(s: seq<Node>, k: nat, bs: set<Block>)
      requires forall i :: 0 <= i < |s| ==> 0 <= s[i].index
      requires forall i, j :: 0 <= i < j < |s| ==> s[i].index != s[j].index
      requires forall b :: b in bs <==> exists i :: 0 <= i < |s| && b == Block(s[i].index, k)
      ensures |s| == |bs|
    {
      if s == [] {
        assert bs == {};
      } else {
        var m := |s| - 1;
        var b := Block(s[m].index, k);
        forall c ensures c in bs - {b} <==> exists i :: 0 <= i < m && c == Block(s[..m][i].index, k) {
          if c in bs - {b} {
            var i :| 0 <= i < |s| && c == Block(s[i].index, k);
            assert c == Block(s[..m][i].index, k);
          }
        }
        SeqSize(s[..m], k, bs - {b});
        assert b in bs;
      }
    }

    lemma ListSize(k: nat)
      requires Linked({}) && k < BUDDY_MAX_ORDER
      ensures |lists[k]| == |OfOrder(Free({}), k)|
    {
      assert IsList(k);
      var s := lists[k];
      forall i, j | 0 <= i < j < |s| ensures s[i].index != s[j].index {
        assert Listed(s[i], k) && Listed(s[j], k);
      }
      forall b ensures b in OfOrder(Free({}), k) <==> exists i :: 0 <= i < |s| && b == Block(s[i].index, k) {
        if b in OfOrder(Free({}), k) {
          assert pages[b.start].pp_node in s;
        }
        if i :| 0 <= i < |s| && b == Block(s[i].index, k) {
          assert s[i] in s;
          assert b == BlockAt(s[i].index);
        }
      }
      SeqSize(s, k, OfOrder(Free({}), k));
    }

    method CountFreePages(order: nat) returns (n: nat)
      requires Linked({})
      ensures n == if order >= BUDDY_MAX_ORDER then 0 else |lists[order]|
      ensures order < BUDDY_MAX_ORDER ==> n == |OfOrder(Free({}), order)|
    {
      n := 0;
      if order >= BUDDY_MAX_ORDER {
        return;
      }
      assert IsList(order);
      ghost var s := lists[order];
      var node := freeList[order].next;
      while node != freeList[order]
        invariant n <= |s| && node == if n == |s| then freeList[order] else s[n]
        decreases |s| - n
      {
        n := n + 1;
        node := node.next;
      }
      ListSize(order);
    }

    lemma TotalIsPages()
      ensures Valid() ==> Total(Free({}), BUDDY_MAX_ORDER) == |PagesOf(Free({}), |pages|)|
    {
      if Inv(Now(), |pages|) {
        forall p: nat | Covers(Free({}), p) ensures p < |pages| {
          CoversUnion(Free({}), live, p);
        }
        TotalCountsPages(Free({}), |pages|);
      }
    }

    /** The sum over the lists is the number of free pages. */
    method CountTotalFreePages() returns (nfree: nat)
      requires Linked({})
      ensures nfree == Total(Free({}), BUDDY_MAX_ORDER)
      ensures Valid() ==> nfree == |PagesOf(Free({}), |pages|)|
    {
      nfree := 0;
      var order := 0;
      while order < BUDDY_MAX_ORDER
        invariant Linked({})
        invariant order <= BUDDY_MAX_ORDER && nfree == Total(Free({}), order)
      {
        var n := CountFreePages(order);
        nfree := nfree + n * Pow2(order);
        order := order + 1;
      }
      TotalIsPages();
    }

    /** The pages of x's block exist. */
    ghost predicate InRange(x: nat)
      requires x < |pages|
      reads pages
    {
      forall p: nat :: BlockAt(x).Has(p) ==> p < |pages|
    }

    /** A page in a block off the lists heads no free block. */
    lemma NotFree(x: nat, h: nat)
      requires Floating(x) && h < |pages| && h != x && BlockAt(x).Has(h)
      ensures !pages[h].pp_free
    {
      if pages[h].pp_free {
        assert BlockAt(h) in Free({x}) && BlockAt(h).Has(h);
      }
    }

    lemma MarkedPush(ls: OrderLists, xs: set<int>, h: nat)
      requires Shape() && h < |pages| && h !in xs && Marked(ls, xs + {h})
      requires pages[h].pp_free && pages[h].pp_order < BUDDY_MAX_ORDER
      ensures var k := pages[h].pp_order; Marked(ls[k := [pages[h].pp_node] + ls[k]], xs)
    {
    }

    lemma MarkedPull(ls: OrderLists, xs: set<int>, h: nat, j: nat)
      requires Shape() && h < |pages| && h !in xs && Marked(ls, xs) && pages[h].pp_free
      requires var k := pages[h].pp_order; j < |ls[k]| && Distinct(ls[k]) && ls[k][j] == pages[h].pp_node
      ensures var k := pages[h].pp_order; Marked(ls[k := Without(ls[k], j)], xs + {h})
    {
      MinusAt(ls[pages[h].pp_order], j);
    }

    /** A node of list k is on no other list and belongs to no page off the lists. */
    lemma OnlyOn(xs: set<int>, n: Node, k: nat)
      requires Linked(xs) && k < BUDDY_MAX_ORDER && (n == freeList[k] || n in lists[k])
      ensures forall i :: 0 <= i < BUDDY_MAX_ORDER && i != k ==> n !in lists[i] && n != freeList[i]
      ensures forall i :: 0 <= i < |pages| && (i in xs || !pages[i].pp_free) ==> pages[i].pp_node != n
    {
      assert n in lists[k] ==> Listed(n, k);
      forall i | 0 <= i < BUDDY_MAX_ORDER && i != k ensures n !in lists[i] {
        assert n in lists[i] ==> Listed(n, i);
      }
    }

    /** list_add of a page, from off the lists, to the list of its order. */
    method Push(h: nat, ghost xs: set<int>)
      requires h < |pages| && Linked(xs + {h}) && h !in xs
      requires pages[h].pp_free && pages[h].pp_order < BUDDY_MAX_ORDER
      modifies this`lists, freeList, nodes
      ensures Linked(xs)
      ensures lists == old(lists)[pages[h].pp_order := [pages[h].pp_node] + old(lists)[pages[h].pp_order]]
    {
      var k := pages[h].pp_order;
      var node := pages[h].pp_node;
      assert IsList(k);
      MarkedPush(lists, xs, h);
      OnlyOn(xs + {h}, freeList[k], k);
      OnlyOn(xs + {h}, freeList[k].next, k);
      ListAdd(freeList[k], node, lists[k]);
      lists := lists[k := [node] + lists[k]];
      forall i | 0 <= i < BUDDY_MAX_ORDER ensures IsList(i) {
        assert old(IsList(i));
      }
    }

    lemma OnItsList(xs: set<int>, h: nat) returns (j: nat)
      requires Linked(xs) && h < |pages| && h !in xs && pages[h].pp_free
      ensures pages[h].pp_order < BUDDY_MAX_ORDER && IsList(pages[h].pp_order)
      ensures var s := lists[pages[h].pp_order]; j < |s| && s[j] == pages[h].pp_node
    {
      j :| 0 <= j < |lists[pages[h].pp_order]| && lists[pages[h].pp_order][j] == pages[h].pp_node;
    }

    /** list_del of a page that is on the list of its order. */
    method Pull(h: nat, ghost xs: set<int>)
      requires h < |pages| && Linked(xs) && h !in xs && pages[h].pp_free
      modifies this`lists, freeList, nodes
      ensures Linked(xs + {h})
      ensures lists == old(lists)[pages[h].pp_order := Minus(old(lists)[pages[h].pp_order], pages[h].pp_node)]
    {
      hide Marked, Ring;
      ghost var k := pages[h].pp_order;
      var node := pages[h].pp_node;
      ghost var j := OnItsList(xs, h);
      Neighbours(freeList[k], lists[k], j);
      MinusAt(lists[k], j);
      MarkedPull(lists, xs, h, j);
      OnlyOn(xs, node, k);
      OnlyOn(xs, node.prev, k);
      OnlyOn(xs, node.next, k);
      ListDel(node, freeList[k], lists[k], j);
      lists := lists[k := Without(lists[k], j)];
      assert IsList(k);
      forall i | 0 <= i < BUDDY_MAX_ORDER && i != k ensures IsList(i) {
        assert old(IsList(i));
      }
    }

    /** FIND_BUDDY: the page at the physical address of the block's buddy. */
    method FindBuddy(x: nat) returns (h: nat)
      requires x < |pages| && BlockAt(x).Aligned() && BlockAt(x).Buddy().start < |pages|
      ensures h == BlockAt(x).Buddy().start
    {
      var pa := Bits.Xor(x * PAGE_SIZE, Pow2(pages[x].pp_order) * PAGE_SIZE);
      BuddyAddress(BlockAt(x));
      h := pa / PAGE_SIZE;
    }

    /** A page not marked free may be left out or not. */
    lemma Unmarked(xs: set<int>, h: nat)
      requires h < |pages| && !pages[h].pp_free
      ensures Linked(xs) <==> Linked(xs + {h})
      ensures Free(xs) == Free(xs + {h})
    {
      if Linked(xs) {
        forall k, n | 0 <= k < BUDDY_MAX_ORDER && n in lists[k] ensures n.index != h {
          assert Listed(n, k);
        }
      }
    }

    lemma FreeWith(xs: set<int>, h: nat)
      requires h < |pages| && pages[h].pp_free && h !in xs
      ensures Free(xs) == Free(xs + {h}) + {BlockAt(h)}
      ensures BlockAt(h) !in Free(xs + {h})
    {
    }

    /** Writes the metadata of a page off the lists. */
    method Mark(h: nat, order: nat, free: bool, ghost xs: set<int>)
      requires h < |pages| && h in xs && Linked(xs)
      modifies pages[h]
      ensures Linked(xs) && pages[h].pp_order == order && pages[h].pp_free == free
      ensures Free(xs) == old(Free(xs))
      ensures Metas() == old(Metas())[h := Meta(old(pages[h].pp_ref), order, free)]
    {
      pages[h].pp_order := order;
      pages[h].pp_free := free;
      assert forall i :: 0 <= i < |pages| && i != h ==> pages[i].pp_node.index != pages[h].pp_node.index;
      forall k, n | 0 <= k < BUDDY_MAX_ORDER && n in lists[k] ensures Listed(n, k) && n.index !in xs {
        assert old(Listed(n, k));
      }
    }

    /** Marks page h free at the given order and puts it on that list. */
    method PutFree(h: nat, order: nat, ghost xs: set<int>)
      requires h < |pages| && h !in xs && Linked(xs) && !pages[h].pp_free && order < BUDDY_MAX_ORDER
      modifies this`lists, freeList, nodes, pages[h]
      ensures Linked(xs) && Free(xs) == old(Free(xs)) + {Block(h, order)}
      ensures lists == old(lists)[order := [pages[h].pp_node] + old(lists)[order]]
      ensures Metas() == old(Metas())[h := Meta(old(pages[h].pp_ref), order, true)]
    {
      Unmarked(xs, h);
      Mark(h, order, true, xs + {h});
      FreeWith(xs, h);
      Push(h, xs);
    }

    lemma HalfFacts(x: nat)
      requires Floating(x) && InRange(x) && 0 < pages[x].pp_order < BUDDY_MAX_ORDER
      ensures var lo := Block(x, pages[x].pp_order - 1);
              var h := lo.Buddy().start;
              && lo.Aligned() && h == x + Pow2(lo.order) && h < |pages| && h != x
              && !pages[h].pp_free && BlockAt(x).Has(x) && BlockAt(x).Has(h)
    {
      HalveKeeps(Free({x}), BlockAt(x));
      LowerHalf(BlockAt(x));
      var hi := Block(x, pages[x].pp_order - 1).Buddy();
      assert hi.Has(hi.start);
      NotFree(x, hi.start);
    }

    /** One round of the splitting loop. */
    method Halve(x: nat)
      requires Floating(x) && InRange(x) && 0 < pages[x].pp_order < BUDDY_MAX_ORDER
      modifies this`lists, freeList, nodes, pages
      ensures pages[x].pp_order == old(pages[x].pp_order) - 1
      ensures var h := x + Pow2(pages[x].pp_order);
              && Linked({x}) && h < |pages|
              && Free({x}) == old(Free({x})) + {BlockAt(x).Buddy()}
              && lists == old(lists)[pages[x].pp_order := [pages[h].pp_node] + old(lists)[pages[x].pp_order]]
      ensures Kept(old(Metas()), Metas(), old(BlockAt(x)))
    {
      hide Linked, Kept;
      ghost var m, b, free := Metas(), BlockAt(x), pages[x].pp_free;
      HalfFacts(x);
      Mark(x, pages[x].pp_order - 1, pages[x].pp_free, {x});
      var h := FindBuddy(x);
      PutFree(h, pages[x].pp_order, {x});
      KeptTwo(m, x, Meta(m[x].ref, b.order - 1, free), h, Meta(m[h].ref, b.order - 1, true), b);
    }

    /** now is what the lists were, with the upper halves of orders r to k - 1
        of a block at page x put on the front of theirs. */
    ghost predicate Pushed(now: OrderLists, was: OrderLists, x: nat, r: nat, k: nat)
    {
      forall j {:trigger now[j]} :: 0 <= j < BUDDY_MAX_ORDER ==>
        if r <= j < k
        then x + Pow2(j) < |pages| && now[j] == [pages[x + Pow2(j)].pp_node] + was[j]
        else now[j] == was[j]
    }

    lemma PushedMore(now: OrderLists, was: OrderLists, x: nat, r: nat, k: nat)
      requires 0 < r <= k <= BUDDY_MAX_ORDER
      requires Pushed(now, was, x, r, k) && x + Pow2(r - 1) < |pages|
      ensures Pushed(now[r - 1 := [pages[x + Pow2(r - 1)].pp_node] + now[r - 1]], was, x, r - 1, k)
    {
      var next := now[r - 1 := [pages[x + Pow2(r - 1)].pp_node] + now[r - 1]];
      assert now[r - 1] == was[r - 1];
      forall j | 0 <= j < BUDDY_MAX_ORDER
        ensures if r - 1 <= j < k
                then x + Pow2(j) < |pages| && next[j] == [pages[x + Pow2(j)].pp_node] + was[j]
                else next[j] == was[j]
      {
        if j != r - 1 {
          assert next[j] == now[j];
        }
      }
    }

    /** How far the splitting of b, apart from f, has come: bx is left to split,
        with fx and ls on the lists and m the metadata. */
    ghost predicate SplitSoFar(bx: Block, fx: set<Block>, ls: OrderLists, m: seq<Meta>, goal: SplitGoal)
    {
      && Floats(fx, bx) && bx.start == goal.b.start && goal.r <= bx.order <= goal.b.order < BUDDY_MAX_ORDER
      && (forall p: nat :: bx.Has(p) ==> goal.b.Has(p))
      && Split(fx, bx, goal.r) == Split(goal.f, goal.b, goal.r)
      && Pushed(ls, goal.ls, bx.start, bx.order, goal.b.order)
      && Kept(goal.m, m, goal.b)
    }

    lemma SplitGoesOn(bx: Block, fx: set<Block>, ls: OrderLists, m: seq<Meta>,
                      lo: Block, fx1: set<Block>, ls1: OrderLists, m1: seq<Meta>, goal: SplitGoal)
      requires SplitSoFar(bx, fx, ls, m, goal) && goal.r < bx.order && Kept(m, m1, bx)
      requires lo == Block(bx.start, bx.order - 1) && fx1 == fx + {lo.Buddy()}
      requires var h := bx.start + Pow2(lo.order);
               h < |pages| && ls1 == ls[lo.order := [pages[h].pp_node] + ls[lo.order]]
      ensures SplitSoFar(lo, fx1, ls1, m1, goal) && Floats(fx1, lo)
      ensures forall p: nat :: lo.Has(p) ==> bx.Has(p)
    {
      HalveKeeps(fx, bx);
      PushedMore(ls, goal.ls, bx.start, bx.order, goal.b.order);
      KeptWider(goal.m, m, m1, bx, goal.b);
    }

    method SplitRound(x: nat, ghost goal: SplitGoal)
      requires Floating(x) && InRange(x) && goal.r < pages[x].pp_order < BUDDY_MAX_ORDER
      requires SplitSoFar(BlockAt(x), Free({x}), lists, Metas(), goal)
      modifies this`lists, freeList, nodes, pages
      ensures Floating(x) && InRange(x) && pages[x].pp_order == old(pages[x].pp_order) - 1
      ensures SplitSoFar(BlockAt(x), Free({x}), lists, Metas(), goal)
    {
      hide SplitSoFar, Linked, Kept;
      ghost var bx, fx, ls, m := BlockAt(x), Free({x}), lists, Metas();
      Halve(x);
      SplitGoesOn(bx, fx, ls, m, BlockAt(x), Free({x}), lists, Metas(), goal);
    }

    /** Halves the block of page x down to the requested order. Every upper
        half goes to the front of its list. */
    method BuddySplit(x: nat, reqOrder: nat)
      requires Floating(x) && InRange(x) && reqOrder <= pages[x].pp_order < BUDDY_MAX_ORDER
      modifies this`lists, freeList, nodes, pages
      ensures Linked({x}) && pages[x].pp_order == reqOrder
      ensures Free({x}) == Split(old(Free({x})), old(BlockAt(x)), reqOrder)
      ensures Pushed(lists, old(lists), x, reqOrder, old(pages[x].pp_order))
      ensures Kept(old(Metas()), Metas(), old(BlockAt(x)))
    {
      ghost var goal := SplitGoal(reqOrder, BlockAt(x), Free({x}), lists, Metas());
      while pages[x].pp_order != reqOrder
        invariant Floating(x) && InRange(x) && reqOrder <= pages[x].pp_order < BUDDY_MAX_ORDER
        invariant SplitSoFar(BlockAt(x), Free({x}), lists, Metas(), goal)
        decreases pages[x].pp_order
      {
        SplitRound(x, goal);
      }
    }

    /** list_del of a page on no list. */
    method PullAgain(x: nat, ghost xs: set<int>)
      requires x < |pages| && x in xs && Linked(xs)
      modifies pages[x].pp_node
      ensures Linked(xs)
    {
      ghost var node := pages[x].pp_node;
      assert Alone(node);
      assert forall k :: 0 <= k < BUDDY_MAX_ORDER ==> node !in lists[k];
      ListDel(pages[x].pp_node, node, [], 0);
      forall k | 0 <= k < BUDDY_MAX_ORDER ensures IsList(k) {
        assert old(IsList(k));
      }
    }

    /** The search of the merging loop: the free page of the given order at
        the given physical address, if there is one. */
    method FindOnList(order: nat, pa: nat, ghost x: int) returns (found: bool, h: nat)
      requires Linked({x}) && order < BUDDY_MAX_ORDER
      ensures found ==> h < |pages| && h * PAGE_SIZE == pa && Block(h, order) in Free({x})
      ensures !found ==> forall b :: b in Free({x}) && b.order == order ==> b.start * PAGE_SIZE != pa
    {
      assert IsList(order);
      ghost var s := lists[order];
      ghost var j := 0;
      var temp := freeList[order].next;
      while temp != freeList[order]
        invariant 0 <= j <= |s| && temp == if j == |s| then freeList[order] else s[j]
        invariant forall i :: 0 <= i < j ==> s[i].index * PAGE_SIZE != pa
        decreases |s| - j
      {
        assert temp in s && Listed(temp, order);
        if temp.index * PAGE_SIZE == pa {
          assert BlockAt(temp.index) == Block(temp.index, order);
          return true, temp.index;
        }
        temp := temp.next;
        j := j + 1;
      }
      found, h := false, 0;
      forall b | b in Free({x}) && b.order == order ensures b.start * PAGE_SIZE != pa {
        assert pages[b.start].pp_node in s;
      }
    }

    /** Clears the marks of two pages off the lists. */
    method Unmark(x: nat, h: nat, ghost xs: set<int>)
      requires Linked(xs) && x in xs && h in xs && x < |pages| && h < |pages| && h != x
      modifies pages[x], pages[h]
      ensures Linked(xs) && !pages[x].pp_free && !pages[h].pp_free
      ensures Free(xs) == old(Free(xs))
      ensures var m := old(Metas());
              Metas() == m[x := Meta(m[x].ref, m[x].order, false)][h := Meta(m[h].ref, m[h].order, false)]
    {
      hide Linked;
      Mark(x, pages[x].pp_order, false, xs);
      Mark(h, pages[h].pp_order, false, xs);
    }

    /** Both list_del calls: the buddy, page h, leaves its list, and page x is on
        none. */
    method Unlink(x: nat, h: nat)
      requires Linked({x}) && x < |pages| && h < |pages| && h != x && pages[h].pp_free
      modifies this`lists, freeList, nodes
      ensures Linked({x} + {h})
      ensures Free({x} + {h}) == Free({x}) - {BlockAt(h)}
      ensures lists == old(lists)[pages[h].pp_order := Minus(old(lists)[pages[h].pp_order], pages[h].pp_node)]
    {
      assert pages[x].pp_node in nodes;
      hide Linked;
      FreeWith({x}, h);
      Pull(h, {x});
      PullAgain(x, {x} + {h});
    }

    /** Leaves only page y, of the two off the lists, marked free, one order up. */
    method Promote(y: nat, ghost z: nat)
      requires y < |pages| && z < |pages| && y != z && Linked({y} + {z}) && !pages[z].pp_free
      modifies pages[y]
      ensures Linked({y}) && Free({y}) == old(Free({y} + {z}))
      ensures Metas() == old(Metas())[y := Meta(old(pages[y].pp_ref), old(pages[y].pp_order) + 1, true)]
    {
      Mark(y, pages[y].pp_order + 1, true, {y} + {z});
      Unmarked({y}, z);
    }

    /** The marks of a merge: of the two pages off the lists only y, with its
        order raised, is left marked free. */
    method MarkMerged(x: nat, h: nat, y: nat, ghost b: Block)
      requires Linked({x} + {h}) && x < |pages| && h < |pages| && h != x && (y == x || y == h)
      requires b.Has(x) && b.Has(h)
      modifies pages[x], pages[h]
      ensures pages[y].pp_free && pages[y].pp_order == old(pages[y].pp_order) + 1
      ensures Linked({y}) && Free({y}) == old(Free({x} + {h}))
      ensures Kept(old(Metas()), Metas(), b)
    {
      hide Linked, Kept;
      ghost var m := Metas();
      Unmark(x, h, {x} + {h});
      ghost var z := if y == x then h else x;
      assert {x} + {h} == {y} + {z};
      Promote(y, z);
      KeptPair(m, x, h, y, b);
    }

    /** One round of the merging loop that has found the buddy. */
    method MergeOnce(x: nat, h: nat) returns (y: nat)
      requires Floating(x) && pages[x].pp_order < BUDDY_MAX_ORDER
      requires h < |pages| && BlockAt(x).Buddy() == Block(h, pages[x].pp_order) && BlockAt(x).Buddy() in Free({x})
      modifies this`lists, freeList, nodes, pages
      ensures y < |pages| && BlockAt(y) == old(BlockAt(x)).Parent() && pages[y].pp_free
      ensures Linked({y}) && Free({y}) == old(Free({x})) - {old(BlockAt(x)).Buddy()}
      ensures var k := old(pages[x].pp_order); lists == old(lists)[k := Minus(old(lists)[k], pages[h].pp_node)]
      ensures Kept(old(Metas()), Metas(), old(BlockAt(x)).Parent())
    {
      ghost var b := BlockAt(x);
      ghost var up := b.Parent();
      PairInParent(b);
      assert up == Block(if x < h then x else h, b.order + 1) && up.Has(x) && up.Has(h);
      hide Linked, Kept, Floats, Block.Has, Block.Buddy, Block.Parent;
      Unlink(x, h);
      y := if x * PAGE_SIZE < h * PAGE_SIZE then x else h;
      MarkMerged(x, h, y, up);
    }

    /** now is what the lists were, with the buddies that b meets at the orders
        from its own to k - 1 taken off theirs. */
    ghost predicate Pulled(now: OrderLists, was: OrderLists, b: Block, k: nat)
    {
      forall j {:trigger now[j]} :: 0 <= j < BUDDY_MAX_ORDER ==>
        if b.order <= j < k
        then var h := b.Ancestor(j).Buddy().start; h < |pages| && now[j] == Minus(was[j], pages[h].pp_node)
        else now[j] == was[j]
    }

    lemma PulledMore(now: OrderLists, was: OrderLists, b: Block, k: nat)
      requires b.order <= k < BUDDY_MAX_ORDER
      requires Pulled(now, was, b, k) && b.Ancestor(k).Buddy().start < |pages|
      ensures Pulled(now[k := Minus(now[k], pages[b.Ancestor(k).Buddy().start].pp_node)], was, b, k + 1)
    {
      hide Minus;
      var next := now[k := Minus(now[k], pages[b.Ancestor(k).Buddy().start].pp_node)];
      assert now[k] == was[k];
      forall j | 0 <= j < BUDDY_MAX_ORDER
        ensures if b.order <= j < k + 1
                then var h := b.Ancestor(j).Buddy().start; h < |pages| && next[j] == Minus(was[j], pages[h].pp_node)
                else next[j] == was[j]
      {
        if j != k {
          assert next[j] == now[j];
        }
      }
    }

    /** How far the merging of b has come: to c, with f and ls on the lists and
        m the metadata. */
    ghost predicate MergedSoFar(c: Block, f: set<Block>, ls: OrderLists, m: seq<Meta>, goal: MergeGoal)
    {
      && Floats(f, c) && goal.b.order <= c.order && c == goal.b.Ancestor(c.order)
      && Merge(f, c) == Merge(goal.f, goal.b)
      && Pulled(ls, goal.ls, goal.b, c.order)
      && Kept(goal.m, m, c)
    }

    lemma MergeGoesOn(c: Block, f: set<Block>, ls: OrderLists, m: seq<Meta>,
                      d: Block, f1: set<Block>, ls1: OrderLists, m1: seq<Meta>, goal: MergeGoal)
      requires MergedSoFar(c, f, ls, m, goal) && c.order < BUDDY_MAX_ORDER && c.Buddy() in f
      requires d == c.Parent() && f1 == f - {c.Buddy()} && Kept(m, m1, d)
      requires var h := c.Buddy().start; h < |pages| && ls1 == ls[c.order := Minus(ls[c.order], pages[h].pp_node)]
      ensures MergedSoFar(d, f1, ls1, m1, goal)
    {
      AncestorParent(goal.b, c.order);
      PulledMore(ls, goal.ls, goal.b, c.order);
      JoinKeeps(f, c);
      KeptMore(goal.m, m, m1, c, d);
    }

    method MergeRound(y: nat, h: nat, ghost goal: MergeGoal) returns (z: nat)
      requires Floating(y) && pages[y].pp_order < BUDDY_MAX_ORDER
      requires MergedSoFar(BlockAt(y), Free({y}), lists, Metas(), goal)
      requires h < |pages| && BlockAt(y).Buddy() == Block(h, pages[y].pp_order) && BlockAt(y).Buddy() in Free({y})
      modifies this`lists, freeList, nodes, pages
      ensures Floating(z) && pages[z].pp_free && pages[z].pp_order == old(pages[y].pp_order) + 1
      ensures MergedSoFar(BlockAt(z), Free({z}), lists, Metas(), goal)
    {
      ghost var c, f, ls, m := BlockAt(y), Free({y}), lists, Metas();
      z := MergeOnce(y, h);
      MergeGoesOn(c, f, ls, m, BlockAt(z), Free({z}), lists, Metas(), goal);
    }

    /** Merges the block of page x, off the lists, with its buddy for as long as
        the buddy is on the list of its order. */
    method BuddyMerge(x: nat) returns (y: nat)
      requires Floating(x) && pages[x].pp_free && pages[x].pp_order < BUDDY_MAX_ORDER
      modifies this`lists, freeList, nodes, pages
      ensures Floating(y) && pages[y].pp_free
      ensures (Free({y}), BlockAt(y)) == Merge(old(Free({x})), old(BlockAt(x)))
      ensures Pulled(lists, old(lists), old(BlockAt(x)), pages[y].pp_order)
      ensures Kept(old(Metas()), Metas(), BlockAt(y))
    {
      hide Linked;
      ghost var goal := MergeGoal(BlockAt(x), Free({x}), lists, Metas());
      y := x;
      var again := true;
      while again
        invariant Floating(y) && pages[y].pp_free
        invariant MergedSoFar(BlockAt(y), Free({y}), lists, Metas(), goal)
        invariant if again then pages[y].pp_order < BUDDY_MAX_ORDER
                  else Merge(Free({y}), BlockAt(y)) == (Free({y}), BlockAt(y))
        decreases BUDDY_MAX_ORDER - pages[y].pp_order, again
      {
        var buddyPa := Bits.Xor(y * PAGE_SIZE, Pow2(pages[y].pp_order) * PAGE_SIZE);
        BuddyAddress(BlockAt(y));
        var found, h := FindOnList(pages[y].pp_order, buddyPa, y);
        if found {
          y := MergeRound(y, h, goal);
        }
        again := pages[y].pp_order < BUDDY_MAX_ORDER && found;
      }
    }

    lemma FirstOnList(k: nat) returns (h: nat)
      requires Linked({}) && k < BUDDY_MAX_ORDER && lists[k] != []
      ensures IsList(k) && h < |pages| && h == lists[k][0].index
      ensures pages[h].pp_node == lists[k][0] && pages[h].pp_free && pages[h].pp_order == k
    {
      h := lists[k][0].index;
      assert IsList(k) && Listed(lists[k][0], k);
    }

    /** list_pop_tail of the list of order k. */
    method PopFirst(k: nat) returns (x: nat)
      requires Linked({}) && k < BUDDY_MAX_ORDER && lists[k] != []
      modifies this`lists, freeList, nodes
      ensures x == old(lists)[k][0].index < |pages| && pages[x].pp_free && pages[x].pp_order == k
      ensures Linked({x})
      ensures lists == old(lists)[k := old(lists)[k][1..]]
    {
      hide Marked, Ring;
      ghost var h := FirstOnList(k);
      ghost var s := lists[k];
      Neighbours(freeList[k], s, 0);
      assert Without(s, 0) == s[1..] && {} + {h} == {h};
      MarkedPull(lists, {}, h, 0);
      OnlyOn({}, freeList[k], k);
      OnlyOn({}, s[0], k);
      OnlyOn({}, s[0].next, k);
      var node := ListPopTail(freeList[k], s);
      x := node.index;
      lists := lists[k := s[1..]];
      assert IsList(k);
      forall i | 0 <= i < BUDDY_MAX_ORDER && i != k ensures IsList(i) {
        assert old(IsList(i));
      }
    }

    /** A free block taken off its list may be split. */
    lemma TakenFloats(x: nat, b: Block, s: State)
      requires Inv(s, |pages|) && b in s.free && Linked({x}) && x < |pages|
      requires b == BlockAt(x) && Free({x}) == s.free - {b}
      ensures Floating(x) && InRange(x)
    {
      forall p: nat | b.Has(p) ensures p < |pages| {
        assert b in s.free + s.live;
        assert Covers(s.free + s.live, p);
      }
    }

    /** Takes the first block off the list of order k, ready to be split. */
    method TakeOff(k: nat) returns (x: nat)
      requires Valid() && k < BUDDY_MAX_ORDER && lists[k] != []
      modifies this`lists, freeList, nodes
      ensures x == old(lists)[k][0].index && Floating(x) && InRange(x) && BlockAt(x) == Block(x, k)
      ensures Block(x, k) in Free({}) && Free({x}) == Free({}) - {Block(x, k)}
      ensures lists == old(lists)[k := old(lists)[k][1..]]
    {
      ghost var s := Now();
      x := PopFirst(k);
      FreeWith({}, x);
      assert {} + {x} == {x};
      TakenFloats(x, BlockAt(x), s);
    }

    /** The split of buddy_find, made only for a larger order, and the mark it
        ends with. */
    method SplitAndMark(x: nat, reqOrder: nat)
      requires Floating(x) && InRange(x) && reqOrder <= pages[x].pp_order < BUDDY_MAX_ORDER
      modifies this`lists, freeList, nodes, pages
      ensures Linked({x}) && Free({x}) == Split(old(Free({x})), old(BlockAt(x)), reqOrder)
      ensures pages[x].pp_order == reqOrder && !pages[x].pp_free
      ensures Pushed(lists, old(lists), x, reqOrder, old(pages[x].pp_order))
      ensures Kept(old(Metas()), Metas(), old(BlockAt(x)))
    {
      ghost var b, m := BlockAt(x), Metas();
      if pages[x].pp_order > reqOrder {
        BuddySplit(x, reqOrder);
      }
      ghost var m1 := Metas();
      assert b.Has(x);
      Mark(x, pages[x].pp_order, false, {x});
      KeptMore(m, m1, Metas(), b, b);
    }

    /** Takes the first block on the list of order k and splits it down. */
    method TakeFirst(k: nat, reqOrder: nat) returns (x: nat)
      requires Valid() && reqOrder <= k < BUDDY_MAX_ORDER && lists[k] != []
      modifies this`lists, freeList, nodes, pages
      ensures x == old(lists)[k][0].index && Block(x, k) in old(Free({}))
      ensures x < |pages| && Linked({}) && Free({}) == Take(old(Free({})), Block(x, k), reqOrder)
      ensures Pushed(lists, old(lists)[k := old(lists)[k][1..]], x, reqOrder, k)
      ensures pages[x].pp_order == reqOrder && !pages[x].pp_free
      ensures Kept(old(Metas()), Metas(), Block(x, k))
    {
      hide Linked;
      x := TakeOff(k);
      SplitAndMark(x, reqOrder);
      assert {} + {x} == {x};
      Unmarked({}, x);
    }

    /** The smallest order, from the requested one up, with a free block. */
    method FindOrder(reqOrder: nat) returns (order: nat)
      requires Linked({}) && reqOrder <= BUDDY_MAX_ORDER
      ensures reqOrder <= order <= BUDDY_MAX_ORDER
      ensures forall k :: reqOrder <= k < order ==> lists[k] == []
      ensures order < BUDDY_MAX_ORDER ==> lists[order] != []
    {
      order := reqOrder;
      while order < BUDDY_MAX_ORDER
        invariant Linked({})
        invariant reqOrder <= order <= BUDDY_MAX_ORDER
        invariant forall k :: reqOrder <= k < order ==> lists[k] == []
      {
        var n := CountFreePages(order);
        if n != 0 {
          break;
        }
        order := order + 1;
      }
    }

    lemma Smallest(k: nat, r: nat)
      requires Linked({}) && r <= k < BUDDY_MAX_ORDER
      requires forall j :: r <= j < k ==> lists[j] == []
      ensures forall c :: c in Free({}) ==> c.order < r || k <= c.order
    {
      forall c | c in Free({}) ensures c.order < r || k <= c.order {
        assert pages[c.start].pp_node in lists[c.order];
      }
    }

    lemma FindCloses(s: State, m: seq<Meta>, b: Block, r: nat, n: nat)
      requires Inv(s, n) && LiveIn(s.live, m) && AllocStep(s, Now(), b, r)
      requires Kept(m, Metas(), b) && b.start < |pages|
      requires Metas()[b.start].order == r && !Metas()[b.start].free
      ensures Inv(Now(), n) && LiveIn(live, Metas())
    {
      AllocKeepsInv(s, Now(), b, r, n);
      forall c | c in s.live ensures !b.Has(c.start) {
        assert c.Has(c.start);
        assert b in s.free + s.live && c in s.free + s.live;
      }
    }

    /** What BuddyFind does once it has found its list. */
    method AllocFrom(k: nat, reqOrder: nat) returns (x: nat)
      requires Valid() && reqOrder <= k < BUDDY_MAX_ORDER && lists[k] != []
      requires forall j :: reqOrder <= j < k ==> lists[j] == []
      modifies this`lists, this`live, freeList, nodes, pages
      ensures Valid() && x < |pages| && x == old(lists)[k][0].index
      ensures AllocStep(old(Now()), Now(), Block(x, k), reqOrder)
      ensures Pushed(lists, old(lists)[k := old(lists)[k][1..]], x, reqOrder, k)
      ensures Kept(old(Metas()), Metas(), Block(x, k))
    {
      hide Linked;
      ghost var s, m := Now(), Metas();
      Smallest(k, reqOrder);
      x := TakeFirst(k, reqOrder);
      live := live + {Block(x, reqOrder)};
      FindCloses(s, m, Block(x, k), reqOrder, |pages|);
    }

    /** Some list from order r up holds a block just when some aligned block of
        order r is wholly free. */
    lemma RoomOnLists(r: nat)
      requires Valid()
      ensures (exists j :: r <= j < BUDDY_MAX_ORDER && lists[j] != []) <==>
              exists c: Block :: c.order == r && c.Aligned() && Fills(Free({}), c)
    {
      var f := Free({});
      RoomIff(f, r);
      if j :| r <= j < BUDDY_MAX_ORDER && lists[j] != [] {
        var h := FirstOnList(j);
        assert BlockAt(h) in f;
      }
      if b :| b in f && r <= b.order {
        assert pages[b.start].pp_node in lists[b.order];
      }
    }

    /** Allocates a block of the requested order. A requested order beyond
        BUDDY_MAX_ORDER is not caught, and pops a list out of bounds. */
    method BuddyFind(reqOrder: nat) returns (inBounds: bool, found: bool, x: nat, ghost k: nat)
      requires Valid()
      modifies this`lists, this`live, freeList, nodes, pages
      ensures Valid()
      ensures inBounds <==> reqOrder <= BUDDY_MAX_ORDER
      ensures found <==> exists j :: reqOrder <= j < BUDDY_MAX_ORDER && old(lists)[j] != []
      ensures found <==> exists c: Block :: c.order == reqOrder && c.Aligned() && Fills(old(Free({})), c)
      ensures !found ==> Now() == old(Now()) && lists == old(lists) && Metas() == old(Metas())
      ensures found ==>
                && reqOrder <= k < BUDDY_MAX_ORDER && old(lists)[k] != []
                && (forall j :: reqOrder <= j < k ==> old(lists)[j] == [])
                && x < |pages| && x == old(lists)[k][0].index
                && AllocStep(old(Now()), Now(), Block(x, k), reqOrder)
                && Pushed(lists, old(lists)[k := old(lists)[k][1..]], x, reqOrder, k)
                && Kept(old(Metas()), Metas(), Block(x, k))
    {
      RoomOnLists(reqOrder);
      hide Fills, Linked, Block.Aligned;
      inBounds := reqOrder <= BUDDY_MAX_ORDER;
      if !inBounds {
        return false, false, 0, 0;
      }
      var order := FindOrder(reqOrder);
      x, k, found := 0, order, order < BUDDY_MAX_ORDER;
      if found {
        x := AllocFrom(order, reqOrder);
      }
    }

    /** The live block of page x, marked free, may be merged. */
    lemma LiveFloats(x: nat, b: Block, s: State)
      requires Inv(s, |pages|) && b in s.live && Linked({x}) && x < |pages|
      requires b == BlockAt(x) && Free({x}) == s.free
      ensures Floating(x) && b.order < BUDDY_MAX_ORDER
    {
      LiveApart(s, |pages|, b);
    }

    /** now is what the lists were, with the buddies that b was merged with taken
        off and the block c that resulted put on the front of its list. */
    ghost predicate Returned(now: OrderLists, was: OrderLists, b: Block, c: Block)
    {
      && c.order < BUDDY_MAX_ORDER && c.start < |pages|
      && now[c.order] == [pages[c.start].pp_node] + was[c.order]
      && Pulled(now[c.order := was[c.order]], was, b, c.order)
    }

    lemma PulledThenPushed(now: OrderLists, was: OrderLists, b: Block, c: Block)
      requires c.order < BUDDY_MAX_ORDER && c.start < |pages|
      requires Pulled(now, was, b, c.order)
      ensures Returned(now[c.order := [pages[c.start].pp_node] + now[c.order]], was, b, c)
    {
      var k := c.order;
      assert now[k] == was[k];
      assert now[k := [pages[c.start].pp_node] + now[k]][k := was[k]] == now;
    }

    /** The list_add that ends page_free. */
    method PutBack(y: nat)
      requires y < |pages| && Linked({y}) && pages[y].pp_free && pages[y].pp_order < BUDDY_MAX_ORDER
      modifies this`lists, freeList, nodes
      ensures Linked({}) && Free({}) == old(Free({y})) + {BlockAt(y)}
      ensures lists == old(lists)[pages[y].pp_order := [pages[y].pp_node] + old(lists)[pages[y].pp_order]]
    {
      assert {} + {y} == {y};
      FreeWith({}, y);
      Push(y, {});
    }

    /** Marks a live block free. */
    method MarkLive(x: nat)
      requires Valid() && x < |pages| && BlockAt(x) in live
      modifies pages[x]
      ensures Floating(x) && pages[x].pp_free && pages[x].pp_order < BUDDY_MAX_ORDER
      ensures BlockAt(x) == old(BlockAt(x)) && Free({x}) == old(Free({}))
      ensures Metas() == old(Metas())[x := Meta(old(pages[x].pp_ref), pages[x].pp_order, true)]
    {
      ghost var s := Now();
      assert {} + {x} == {x};
      Unmarked({}, x);
      Mark(x, pages[x].pp_order, true, {x});
      LiveFloats(x, BlockAt(x), s);
    }

    /** Marks a live block free and merges it. */
    method MergeLive(x: nat) returns (y: nat)
      requires Valid() && x < |pages| && BlockAt(x) in live
      modifies this`lists, freeList, nodes, pages
      ensures y < |pages| && Linked({y}) && pages[y].pp_free && BlockAt(y).Has(x)
      ensures (Free({y}), BlockAt(y)) == Merge(old(Free({})), old(BlockAt(x)))
      ensures Pulled(lists, old(lists), old(BlockAt(x)), pages[y].pp_order)
      ensures Kept(old(Metas()), Metas(), BlockAt(y))
    {
      ghost var m := Metas();
      MarkLive(x);
      MergedHas(Free({x}), BlockAt(x));
      ghost var m1 := Metas();
      y := BuddyMerge(x);
      KeptThroughMark(m, m1, Metas(), x, BlockAt(y));
    }

    /** Marks the block of page x free, merges it and puts it on a list, unless
        it has become too big for any. */
    method Return(x: nat) returns (inBounds: bool)
      requires Valid() && x < |pages| && BlockAt(x) in live
      modifies this`lists, freeList, nodes, pages
      ensures var (g, c) := Merge(old(Free({})), old(BlockAt(x)));
              && (inBounds <==> c.order < BUDDY_MAX_ORDER)
              && (inBounds ==>
                    && Linked({}) && Free({}) == g + {c} && c.Has(x)
                    && Returned(lists, old(lists), old(BlockAt(x)), c)
                    && Kept(old(Metas()), Metas(), c))
    {
      hide Linked, Merge, Pulled, Returned, Kept;
      ghost var b := BlockAt(x);
      var y := MergeLive(x);
      inBounds := pages[y].pp_order < BUDDY_MAX_ORDER;
      if inBounds {
        PulledThenPushed(lists, old(lists), b, BlockAt(y));
        PutBack(y);
      }
    }

    lemma FreeCloses(s: State, m: seq<Meta>, b: Block, n: nat)
      requires Inv(s, n) && LiveIn(s.live, m) && FreeStep(s, Now(), b)
      requires Kept(m, Metas(), Merge(s.free, b).1)
      ensures Inv(Now(), n) && LiveIn(live, Metas())
    {
      FreeKeepsInv(s, Now(), b, n);
      LiveApart(s, n, b);
      MergeKeeps(s.free, b);
      var (g, c) := Merge(s.free, b);
      forall d | d in live ensures !c.Has(d.start) {
        assert d.Has(d.start) && d in s.live - {b};
        assert Covers(s.live, d.start);
        NoPageTwice(s, n, d.start);
      }
    }

    /** Returns a block in use to the lists. The last list_add is out of bounds
        when the merged block is too big for any list. */
    method PageFree(x: nat) returns (inBounds: bool)
      requires Valid() && x < |pages| && BlockAt(x) in live && pages[x].pp_ref == 0
      modifies this`lists, this`live, freeList, nodes, pages
      ensures inBounds <==> !Overruns(old(Free({})), old(BlockAt(x)))
      ensures inBounds ==>
                && Valid() && FreeStep(old(Now()), Now(), old(BlockAt(x)))
                && Returned(lists, old(lists), old(BlockAt(x)), Merge(old(Free({})), old(BlockAt(x))).1)
                && Kept(old(Metas()), Metas(), Merge(old(Free({})), old(BlockAt(x))).1)
    {
      hide Linked;
      ghost var s, b, m := Now(), BlockAt(x), Metas();
      ReturnFits(s, b, |pages|);
      inBounds := Return(x);
      if inBounds {
        live := live - {b};
        FreeCloses(s, m, b, |pages|);
      }
    }

    /** Writes a reference count. */
    method SetRef(x: nat, ref: nat)
      requires Valid() && x < |pages|
      modifies pages[x]
      ensures Valid() && Free({}) == old(Free({}))
      ensures Metas() == old(Metas())[x := Meta(ref, old(pages[x].pp_order), old(pages[x].pp_free))]
    {
      pages[x].pp_ref := ref;
      assert Now() == old(Now());
      forall k, n | 0 <= k < BUDDY_MAX_ORDER && n in lists[k] ensures Listed(n, k) {
        assert old(Listed(n, k));
      }
    }

    /** Drops one reference to page x, and frees its block with the last one. */
    method PageDecref(x: nat) returns (inBounds: bool)
      requires Valid() && x < |pages|
      requires pages[x].pp_ref == 1 ==> BlockAt(x) in live
      modifies this`lists, this`live, freeList, nodes, pages
      ensures inBounds <==> !(old(pages[x].pp_ref) == 1 && Overruns(old(Free({})), old(BlockAt(x))))
      ensures inBounds ==>
                && Valid()
                && pages[x].pp_ref == (if old(pages[x].pp_ref) == 0 then 0xffff else old(pages[x].pp_ref) - 1)
                && (forall i :: 0 <= i < |pages| && i != x ==> pages[i].pp_ref == old(pages[i].pp_ref))
                && if old(pages[x].pp_ref) == 1
                   then FreeStep(old(Now()), Now(), old(BlockAt(x)))
                   else Now() == old(Now()) && lists == old(lists)
    {
      SetRef(x, Decremented(pages[x].pp_ref));
      inBounds := true;
      if pages[x].pp_ref == 0 {
        ghost var m := Metas();
        inBounds := PageFree(x);
        if inBounds {
          forall i | 0 <= i < |pages| ensures pages[i].pp_ref == m[i].ref {
            assert Metas()[i].ref == m[i].ref;
          }
        }
      }
    }

    lemma BlankIsValid(n: nat)
      requires |pages| == n && |freeList| == BUDDY_MAX_ORDER
      requires forall i :: 0 <= i < n ==> pages[i].pp_node in nodes && Blank(pages[i], i)
      requires forall k :: 0 <= k < BUDDY_MAX_ORDER ==>
                 freeList[k].index == -1 - k && freeList[k].next == freeList[k].prev == freeList[k] && lists[k] == []
      requires live == set p: nat | p < n :: Block(p, 0)
      ensures Valid() && Init(Now(), n)
    {
      hide Inv;
      assert Free({}) == {};
      forall k | 0 <= k < BUDDY_MAX_ORDER ensures IsList(k) {
        assert lists[k] == [];
      }
      forall b | b in live ensures b.start < n && Metas()[b.start].order == b.order && !Metas()[b.start].free {
        assert Blank(pages[b.start], b.start);
      }
      InitInv(Now(), n);
    }

    /** list_init of every list, and the first loop of page_init: every page
        starts out in use, at order 0. */
    constructor (n: nat)
      ensures |pages| == n && Valid() && Init(Now(), n)
      ensures forall i :: 0 <= i < n ==> pages[i].pp_ref == 0 && pages[i].pp_order == 0
      ensures fresh(this) && fresh(pages) && fresh(freeList) && fresh(nodes)
    {
      var heads := NewHeads();
      var ps := NewPages(n);
      pages, freeList := ps, heads;
      nodes := set i | 0 <= i < |ps| :: ps[i].pp_node;
      lists := seq(BUDDY_MAX_ORDER, _ => []);
      live := set p: nat | p < n :: Block(p, 0);
      new;
      BlankIsValid(n);
    }
  }
}
