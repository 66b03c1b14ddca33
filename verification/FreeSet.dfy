/** What the free lists hold, as a set of blocks: the coalesced sets, the
    canonical form theorem about them, and the two operations of the allocator
    on them. Nothing here depends on the order of a list. */
module FreeSet {
  import opened Dyadic

  /** The number of free lists; BUDDY_2M_PAGE + 1. */
  const BUDDY_MAX_ORDER: nat := 10

  ghost predicate Covers(f: set<Block>, p: nat) {
    exists b :: b in f && b.Has(p)
  }

  /** Every page of c is in some block of f. */
  ghost predicate Fills(f: set<Block>, c: Block) {
    forall p: nat :: c.Has(p) ==> Covers(f, p)
  }

  /** No page of c is in a block of f. */
  ghost predicate Apart(f: set<Block>, c: Block) {
    forall b, p: nat :: b in f && b.Has(p) ==> !c.Has(p)
  }

  ghost predicate Separate(f: set<Block>) {
    forall a, b, p: nat :: a in f && b in f && a.Has(p) && b.Has(p) ==> a == b
  }

  ghost predicate AllAligned(f: set<Block>) {
    forall b :: b in f ==> b.Aligned() && b.order < BUDDY_MAX_ORDER
  }

  /** Aligned disjoint blocks, no two of which could be merged. */
  ghost predicate Coalesced(f: set<Block>) {
    && AllAligned(f)
    && Separate(f)
    && forall b {:trigger b.Buddy()} :: b in f ==> b.Buddy() !in f
  }

  /** b is aligned and apart from a coalesced f. */
  ghost predicate Floats(f: set<Block>, b: Block) {
    Coalesced(f) && b.Aligned() && b.order <= BUDDY_MAX_ORDER && Apart(f, b)
  }

  // ----- the canonical form -----

  /** An aligned block full of free pages lies within a single free block. */
  lemma {:induction false} FilledIsInside(f: set<Block>, c: Block) returns (b: Block)
    requires Coalesced(f) && c.Aligned() && Fills(f, c)
    ensures b in f && c.order <= b.order && b.Has(c.start)
    decreases c.order
  {
    if c.order == 0 {
      assert c.Has(c.start);
      b :| b in f && b.Has(c.start);
    } else {
      LowerHalf(c);
      var lo := Block(c.start, c.order - 1);
      var hi := lo.Buddy();
      ParentSplits(lo);
      BuddyInvolution(lo);
      b := FilledIsInside(f, lo);
      if b.order == lo.order {
        SameBlock(b, lo, c.start);
        var b' := FilledIsInside(f, hi);
        if b'.order == hi.order {
          SameBlock(b', hi, hi.start);
          assert false;
        }
        Nested(hi, b', hi.start);
        assert b'.Has(c.start);
        b := b';
      }
    }
  }

  /** The free blocks are exactly the maximal aligned blocks of free pages. */
  lemma CanonicalForm(f: set<Block>, c: Block)
    requires Coalesced(f) && c.Aligned()
    ensures c in f <==> Fills(f, c) && !Fills(f, c.Parent())
  {
    if c in f && Fills(f, c.Parent()) {
      ParentSplits(c);
      assert c.Has(c.start);
      assert c.Parent().Has(c.start);
      var b := FilledIsInside(f, c.Parent());
      Nested(c.Parent(), b, c.Parent().start);
      assert false;
    }
    if Fills(f, c) && c !in f {
      var b := FilledIsInside(f, c);
      if b.order == c.order {
        SameBlock(b, c, c.start);
      }
      Nested(c, b, c.start);
      assert Fills(f, c.Parent());
    }
  }

  /** So the set of free pages determines every free list. */
  lemma SamePagesSameBlocks(f: set<Block>, g: set<Block>)
    requires Coalesced(f) && Coalesced(g)
    requires forall p: nat :: Covers(f, p) <==> Covers(g, p)
    ensures f == g
  {
    forall c ensures c in f <==> c in g {
      if c in f || c in g {
        CanonicalForm(f, c);
        CanonicalForm(g, c);
      }
    }
  }

  // ----- freeing -----

  /** The merging loop: what stays in the lists, and the block it ends with. */
  function Merge(f: set<Block>, b: Block): (set<Block>, Block)
    decreases BUDDY_MAX_ORDER - b.order
  {
    if b.order < BUDDY_MAX_ORDER && b.Buddy() in f then
      Merge(f - {b.Buddy()}, b.Parent())
    else
      (f, b)
  }

  function Release(f: set<Block>, b: Block): set<Block> {
    Merge(f, b).0 + {Merge(f, b).1}
  }

  /** With b freed, the whole aligned run of 2^BUDDY_MAX_ORDER pages around b
      is free: more than any free list can hold. */
  ghost predicate Overruns(f: set<Block>, b: Block)
    requires b.order <= BUDDY_MAX_ORDER
  {
    forall p: nat :: b.Ancestor(BUDDY_MAX_ORDER).Has(p) ==> Covers(f, p) || b.Has(p)
  }

  lemma AddCovers(g: set<Block>, c: Block, p: nat)
    ensures Covers(g + {c}, p) <==> Covers(g, p) || c.Has(p)
  {
    if Covers(g, p) {
      var x :| x in g && x.Has(p);
      assert x in g + {c};
    }
    if c.Has(p) {
      assert c in g + {c};
    }
  }

  /** One merge: without the buddy, the lists stay apart from the parent. */
  lemma JoinKeeps(f: set<Block>, b: Block)
    requires Coalesced(f) && b.Aligned() && Apart(f, b) && b.Buddy() in f
    ensures var g := f - {b.Buddy()};
            && Coalesced(g) && b.Parent().Aligned() && Apart(g, b.Parent())
            && (forall p: nat :: b.Has(p) ==> b.Parent().Has(p))
            && (forall p: nat :: Covers(g, p) || b.Parent().Has(p) <==> Covers(f, p) || b.Has(p))
  {
    var d := b.Buddy();
    ParentSplits(b);
    BuddyInvolution(b);
    forall p: nat ensures Covers(f - {d}, p) || d.Has(p) <==> Covers(f, p) {
      AddCovers(f - {d}, d, p);
      assert f - {d} + {d} == f;
    }
  }

  lemma {:induction false} MergeKeeps(f: set<Block>, b: Block)
    requires Coalesced(f) && b.Aligned() && b.order <= BUDDY_MAX_ORDER && Apart(f, b)
    ensures var (g, c) := Merge(f, b);
            && g <= f && Coalesced(g) && Apart(g, c)
            && c.Aligned() && b.order <= c.order <= BUDDY_MAX_ORDER
            && (forall p: nat :: b.Has(p) ==> c.Has(p))
            && (forall p: nat :: Covers(g, p) || c.Has(p) <==> Covers(f, p) || b.Has(p))
            && (c.order < BUDDY_MAX_ORDER ==> c.Buddy() !in g)
    decreases BUDDY_MAX_ORDER - b.order
  {
    if b.order < BUDDY_MAX_ORDER && b.Buddy() in f {
      JoinKeeps(f, b);
      MergeKeeps(f - {b.Buddy()}, b.Parent());
    }
  }

  lemma AddingCoalesces(g: set<Block>, c: Block)
    requires Coalesced(g) && Apart(g, c) && c.Aligned() && c.order < BUDDY_MAX_ORDER
    requires c.Buddy() !in g
    ensures Coalesced(g + {c})
  {
    BuddyInvolution(c);
    forall b | b in g + {c} ensures b.Buddy() !in g + {c} {
      BuddyInvolution(b);
    }
  }

  /** The loop runs past the last free list exactly when b completes an aligned
      run of 2^BUDDY_MAX_ORDER free pages. */
  lemma OverrunsIffTooBig(f: set<Block>, b: Block)
    requires Coalesced(f) && b.Aligned() && b.order <= BUDDY_MAX_ORDER && Apart(f, b)
    ensures Merge(f, b).1.order == BUDDY_MAX_ORDER <==> Overruns(f, b)
  {
    MergeKeeps(f, b);
    var (g, c) := Merge(f, b);
    var run := b.Ancestor(BUDDY_MAX_ORDER);
    AncestorHolds(b, BUDDY_MAX_ORDER);
    assert b.Has(b.start) && run.Has(b.start) && c.Has(b.start);
    if c.order == BUDDY_MAX_ORDER {
      SameBlock(run, c, b.start);
    } else if Overruns(f, b) {
      AddingCoalesces(g, c);
      forall p: nat | run.Has(p) ensures Covers(g + {c}, p) {
        AddCovers(g, c, p);
      }
      var x := FilledIsInside(g + {c}, run);
      assert false;
    }
  }

  /** Freeing keeps the lists coalesced and adds exactly the pages of b. */
  lemma ReleaseKeeps(f: set<Block>, b: Block)
    requires Coalesced(f) && b.Aligned() && b.order < BUDDY_MAX_ORDER && Apart(f, b)
    requires !Overruns(f, b)
    ensures Coalesced(Release(f, b))
    ensures forall p: nat :: Covers(Release(f, b), p) <==> Covers(f, p) || b.Has(p)
  {
    MergeKeeps(f, b);
    OverrunsIffTooBig(f, b);
    var (g, c) := Merge(f, b);
    AddingCoalesces(g, c);
    forall p: nat ensures Covers(g + {c}, p) <==> Covers(f, p) || b.Has(p) {
      AddCovers(g, c, p);
    }
  }

  lemma ApartByPages(f: set<Block>, c: Block)
    requires forall p: nat :: c.Has(p) ==> !Covers(f, p)
    ensures Apart(f, c)
  {
    forall b, p: nat | b in f && b.Has(p) ensures !c.Has(p) {
      assert Covers(f, p);
    }
  }

  /** Two blocks may be freed in either order. */
  lemma ReleasesCommute(f: set<Block>, a: Block, b: Block)
    requires Coalesced(f) && Apart(f, a) && Apart(f, b) && Apart({a}, b)
    requires a.Aligned() && b.Aligned() && a.order < BUDDY_MAX_ORDER && b.order < BUDDY_MAX_ORDER
    requires !Overruns(f + {a}, b) && !Overruns(f + {b}, a)
    ensures Release(Release(f, a), b) == Release(Release(f, b), a)
  {
    var fa, fb := Release(f, a), Release(f, b);
    forall p: nat
      ensures Covers(f + {a}, p) <==> Covers(f, p) || a.Has(p)
      ensures Covers(f + {b}, p) <==> Covers(f, p) || b.Has(p)
    {
      AddCovers(f, a, p);
      AddCovers(f, b, p);
    }
    ReleaseKeeps(f, a);
    ReleaseKeeps(f, b);
    ApartByPages(fa, b);
    ApartByPages(fb, a);
    ReleaseKeeps(fa, b);
    ReleaseKeeps(fb, a);
    SamePagesSameBlocks(Release(fa, b), Release(fb, a));
  }

  // ----- allocating -----

  /** Halves b down to order r, putting every upper half on its list. */
  function Split(f: set<Block>, b: Block, r: nat): set<Block>
    requires r <= b.order
    decreases b.order
  {
    if b.order == r then f
    else
      var lo := Block(b.start, b.order - 1);
      Split(f + {lo.Buddy()}, lo, r)
  }

  /** One block of each order from r to k - 1, after the first 2^r pages. */
  function Tail(start: nat, k: nat, r: nat): set<Block> {
    set j | r <= j < k :: Block(start + Pow2(j), j)
  }

  lemma {:induction false} SplitAddsTail(f: set<Block>, b: Block, r: nat)
    requires b.Aligned() && r <= b.order
    ensures Split(f, b, r) == f + Tail(b.start, b.order, r)
    decreases b.order
  {
    if b.order > r {
      LowerHalf(b);
      var lo := Block(b.start, b.order - 1);
      SplitAddsTail(f + {lo.Buddy()}, lo, r);
      assert Tail(b.start, b.order, r) == Tail(b.start, lo.order, r) + {lo.Buddy()};
    }
  }

  /** One halving: the upper half may join the lists, the lower half stays apart. */
  lemma HalveKeeps(f: set<Block>, b: Block)
    requires Coalesced(f) && b.Aligned() && 0 < b.order <= BUDDY_MAX_ORDER && Apart(f, b)
    ensures var lo := Block(b.start, b.order - 1);
            && lo.Aligned() && lo.Buddy().Aligned() && lo.Buddy() != lo
            && Coalesced(f + {lo.Buddy()}) && Apart(f + {lo.Buddy()}, lo)
            && (forall p: nat :: b.Has(p) <==> lo.Has(p) || lo.Buddy().Has(p))
            && (forall p: nat :: lo.Has(p) ==> !lo.Buddy().Has(p))
            && (forall p: nat :: Covers(f + {lo.Buddy()}, p) <==> Covers(f, p) || lo.Buddy().Has(p))
  {
    LowerHalf(b);
    var lo := Block(b.start, b.order - 1);
    var hi := lo.Buddy();
    ParentSplits(lo);
    BuddyInvolution(lo);
    assert lo !in f by {
      assert lo.Has(lo.start) && b.Has(lo.start);
    }
    AddingCoalesces(f, hi);
    forall p: nat ensures Covers(f + {hi}, p) <==> Covers(f, p) || hi.Has(p) {
      AddCovers(f, hi, p);
    }
    forall p: nat | lo.Has(p) ensures !Covers(f + {hi}, p) {
      assert b.Has(p);
      assert !hi.Has(p);
    }
    ApartByPages(f + {hi}, lo);
  }

  /** Splitting loses exactly the pages of the block it returns, and makes no
      two halves meet again. */
  lemma {:induction false} SplitKeeps(f: set<Block>, b: Block, r: nat)
    requires Coalesced(f) && b.Aligned() && r <= b.order < BUDDY_MAX_ORDER && Apart(f, b)
    ensures Coalesced(Split(f, b, r)) && Apart(Split(f, b, r), Block(b.start, r))
    ensures Block(b.start, r).Aligned()
    ensures forall p: nat :: Block(b.start, r).Has(p) ==> b.Has(p)
    ensures forall p: nat :: Covers(Split(f, b, r), p) <==> Covers(f, p) || (b.Has(p) && !Block(b.start, r).Has(p))
    decreases b.order
  {
    if b.order > r {
      HalveKeeps(f, b);
      var lo := Block(b.start, b.order - 1);
      SplitKeeps(f + {lo.Buddy()}, lo, r);
    }
  }

  /** There is a block to split just when some aligned block of the order asked
      for is wholly free. */
  lemma RoomIff(f: set<Block>, r: nat)
    requires Coalesced(f)
    ensures (exists b :: b in f && r <= b.order) <==> exists c: Block :: c.order == r && c.Aligned() && Fills(f, c)
  {
    if b :| b in f && r <= b.order {
      assert Coalesced({}) && Apart({}, b);
      SplitKeeps({}, b, r);
      assert Fills(f, Block(b.start, r));
    }
    if c: Block :| c.order == r && c.Aligned() && Fills(f, c) {
      var b := FilledIsInside(f, c);
    }
  }

  function Take(f: set<Block>, b: Block, r: nat): set<Block>
    requires r <= b.order
  {
    Split(f - {b}, b, r)
  }

  lemma TakeKeeps(f: set<Block>, b: Block, r: nat)
    requires Coalesced(f) && b in f && r <= b.order
    ensures Coalesced(Take(f, b, r))
    ensures Block(b.start, r).Aligned() && Apart(Take(f, b, r), Block(b.start, r))
    ensures forall p: nat :: Block(b.start, r).Has(p) ==> b.Has(p)
    ensures forall p: nat :: Covers(f, p) <==> Covers(Take(f, b, r), p) || Block(b.start, r).Has(p)
  {
    assert Coalesced(f - {b});
    SplitKeeps(f - {b}, b, r);
    forall p: nat ensures Covers(f, p) <==> Covers(f - {b}, p) || b.Has(p) {
      assert f - {b} + {b} == f;
      AddCovers(f - {b}, b, p);
    }
  }

  /** A coalesced set never fills an aligned run of 2^BUDDY_MAX_ORDER pages. */
  lemma NoRun(f: set<Block>, run: Block, b: Block)
    requires Coalesced(f) && b.order <= BUDDY_MAX_ORDER && run == b.Ancestor(BUDDY_MAX_ORDER)
    ensures !Fills(f, run)
  {
    AncestorHolds(b, BUDDY_MAX_ORDER);
    if Fills(f, run) {
      var x := FilledIsInside(f, run);
      assert false;
    }
  }

  /** A block taken out and given back leaves every list as it was, however
      many times it was split. */
  lemma TakeThenRelease(f: set<Block>, b: Block, r: nat)
    requires Coalesced(f) && b in f && r <= b.order
    ensures var g := Take(f, b, r);
            !Overruns(g, Block(b.start, r)) && Release(g, Block(b.start, r)) == f
  {
    TakeKeeps(f, b, r);
    var g, a := Take(f, b, r), Block(b.start, r);
    NoRun(f, a.Ancestor(BUDDY_MAX_ORDER), a);
    ReleaseKeeps(g, a);
    SamePagesSameBlocks(Release(g, a), f);
  }

  // ----- runs too big for any list -----

  /** Some aligned run of 2^BUDDY_MAX_ORDER pages lies wholly in f. */
  ghost predicate HoldsRun(f: iset<nat>) {
    exists r: Block :: r.order == BUDDY_MAX_ORDER && r.Aligned() && forall p: nat :: r.Has(p) ==> p in f
  }

  lemma MoreHoldsRun(f: iset<nat>, g: iset<nat>)
    requires HoldsRun(f) && f <= g
    ensures HoldsRun(g)
  {
    var r: Block :| r.order == BUDDY_MAX_ORDER && r.Aligned() && forall p: nat :: r.Has(p) ==> p in f;
  }

  lemma OverrunHoldsRun(f: set<Block>, b: Block, g: iset<nat>)
    requires b.order <= BUDDY_MAX_ORDER && Overruns(f, b)
    requires forall p: nat :: Covers(f, p) || b.Has(p) ==> p in g
    ensures HoldsRun(g)
  {
    AncestorHolds(b, BUDDY_MAX_ORDER);
    var r := b.Ancestor(BUDDY_MAX_ORDER);
    assert forall p: nat :: r.Has(p) ==> p in g;
  }

  lemma CoalescedHoldsNoRun(f: set<Block>, g: iset<nat>)
    requires Coalesced(f) && forall p: nat :: p in g ==> Covers(f, p)
    ensures !HoldsRun(g)
  {
    forall r: Block | r.order == BUDDY_MAX_ORDER && r.Aligned() ensures exists p: nat :: r.Has(p) && p !in g {
      NoRun(f, r, r);
    }
  }
}
