/** The allocator as a state machine over free and live blocks: what every step
    and every run keeps, and how many pages are free. */
module Runs {
  import opened Dyadic
  import opened FreeSet
  import opened Words

  /** The blocks on the free lists, and the blocks that are in use. */
  datatype State = State(free: set<Block>, live: set<Block>)

  /** Free and live blocks are aligned, tile the n managed pages without
      overlap, and no two free blocks could be merged. */
  ghost predicate Inv(s: State, n: nat) {
    && Coalesced(s.free)
    && AllAligned(s.live)
    && Separate(s.free + s.live)
    && s.free !! s.live
    && forall p: nat :: p < n <==> Covers(s.free + s.live, p)
  }

  /** Every page starts out in use, at order 0. */
  ghost predicate Init(s: State, n: nat) {
    && s.free == {}
    && s.live == set p: nat | p < n :: Block(p, 0)
  }

  /** A request of order r takes a block of the smallest order that has one. */
  ghost predicate AllocStep(s: State, t: State, b: Block, r: nat) {
    && b in s.free && r <= b.order
    && (forall c :: c in s.free ==> c.order < r || b.order <= c.order)
    && t == State(Take(s.free, b, r), s.live + {Block(b.start, r)})
  }

  ghost predicate FreeStep(s: State, t: State, b: Block) {
    && b in s.live && b.order < BUDDY_MAX_ORDER
    && !Overruns(s.free, b)
    && t == State(Release(s.free, b), s.live - {b})
  }

  ghost predicate Next(s: State, t: State) {
    || (exists b, r: nat :: AllocStep(s, t, b, r))
    || (exists b :: FreeStep(s, t, b))
  }

  ghost predicate Run(ss: seq<State>, n: nat) {
    && |ss| > 0 && Init(ss[0], n)
    && forall i :: 0 < i < |ss| ==> Next(ss[i - 1], ss[i])
  }

  lemma InitInv(s: State, n: nat)
    requires Init(s, n)
    ensures Inv(s, n)
  {
    forall p: nat ensures p < n <==> Covers(s.free + s.live, p) {
      if p < n {
        assert Block(p, 0) in s.live && Block(p, 0).Has(p);
      }
    }
  }

  lemma CoversUnion(f: set<Block>, g: set<Block>, p: nat)
    ensures Covers(f + g, p) <==> Covers(f, p) || Covers(g, p)
  {
    if Covers(f, p) {
      var b :| b in f && b.Has(p);
      assert b in f + g;
    }
    if Covers(g, p) {
      var b :| b in g && b.Has(p);
      assert b in f + g;
    }
  }

  lemma SeparateUnion(f: set<Block>, g: set<Block>)
    requires Separate(f) && Separate(g)
    requires forall p: nat :: !(Covers(f, p) && Covers(g, p))
    ensures Separate(f + g) && f !! g
  {
    forall a, b, p: nat | a in f + g && b in f + g && a.Has(p) && b.Has(p) ensures a == b {
      assert a in f ==> Covers(f, p);
      assert a in g ==> Covers(g, p);
      assert b in f ==> Covers(f, p);
      assert b in g ==> Covers(g, p);
    }
    if a :| a in f && a in g {
      assert a.Has(a.start);
      assert Covers(f, a.start) && Covers(g, a.start);
    }
  }

  /** What Separate(free + live) says, page by page. */
  lemma NoPageTwice(s: State, n: nat, p: nat)
    requires Inv(s, n)
    ensures !(Covers(s.free, p) && Covers(s.live, p))
  {
    forall a, b | a in s.free && a.Has(p) && b in s.live ensures !b.Has(p) {
      assert a in s.free + s.live && b in s.free + s.live;
    }
  }

  lemma LiveApart(s: State, n: nat, b: Block)
    requires Inv(s, n) && b in s.live
    ensures Apart(s.free, b) && Apart(s.live - {b}, b)
  {
    forall c, p: nat | c in s.free && c.Has(p) ensures !b.Has(p) {
      assert b in s.free + s.live && c in s.free + s.live;
    }
    forall c, p: nat | c in s.live - {b} && c.Has(p) ensures !b.Has(p) {
      assert b in s.free + s.live && c in s.free + s.live;
    }
  }

  lemma LiveStaysSeparate(s: State, n: nat, b: Block, a: Block)
    requires Inv(s, n) && b in s.free
    requires forall p: nat :: a.Has(p) ==> b.Has(p)
    ensures Separate(s.live + {a})
  {
    forall x, y, p: nat | x in s.live + {a} && y in s.live + {a} && x.Has(p) && y.Has(p) ensures x == y {
      assert b in s.free + s.live;
      assert x in s.live ==> x in s.free + s.live;
      assert y in s.live ==> y in s.free + s.live;
    }
  }

  lemma AllocKeepsInv(s: State, t: State, b: Block, r: nat, n: nat)
    requires Inv(s, n) && AllocStep(s, t, b, r)
    ensures Inv(t, n)
  {
    var a := Block(b.start, r);
    TakeKeeps(s.free, b, r);
    forall p: nat
      ensures Covers(t.live, p) <==> Covers(s.live, p) || a.Has(p)
      ensures !(Covers(t.free, p) && Covers(t.live, p))
      ensures Covers(t.free + t.live, p) <==> Covers(s.free + s.live, p)
    {
      AddCovers(s.live, a, p);
      NoPageTwice(s, n, p);
      CoversUnion(s.free, s.live, p);
      CoversUnion(t.free, t.live, p);
    }
    LiveStaysSeparate(s, n, b, a);
    SeparateUnion(t.free, t.live);
  }

  lemma FreeKeepsInv(s: State, t: State, b: Block, n: nat)
    requires Inv(s, n) && FreeStep(s, t, b)
    ensures Inv(t, n)
  {
    LiveApart(s, n, b);
    ReleaseKeeps(s.free, b);
    assert s.live == t.live + {b};
    forall p: nat
      ensures !(Covers(t.free, p) && Covers(t.live, p))
      ensures Covers(t.free + t.live, p) <==> Covers(s.free + s.live, p)
    {
      AddCovers(t.live, b, p);
      NoPageTwice(s, n, p);
      CoversUnion(s.free, s.live, p);
      CoversUnion(t.free, t.live, p);
    }
    forall x, y, p: nat | x in t.live && y in t.live && x.Has(p) && y.Has(p) ensures x == y {
      assert x in s.free + s.live && y in s.free + s.live;
    }
    SeparateUnion(t.free, t.live);
  }

  /** Every reachable state satisfies the invariant. */
  lemma {:induction false} RunKeepsInv(ss: seq<State>, n: nat)
    requires Run(ss, n)
    ensures Inv(ss[|ss| - 1], n)
  {
    if |ss| == 1 {
      InitInv(ss[0], n);
    } else {
      var k := |ss| - 1;
      RunKeepsInv(ss[..k], n);
      var s, t := ss[k - 1], ss[k];
      assert Next(s, t);
      if b, r: nat :| AllocStep(s, t, b, r) {
        AllocKeepsInv(s, t, b, r, n);
      } else {
        var b :| FreeStep(s, t, b);
        FreeKeepsInv(s, t, b, n);
      }
    }
  }

  ghost predicate SamePages(f: set<Block>, g: set<Block>) {
    forall p: nat :: Covers(f, p) <==> Covers(g, p)
  }

  /** However they got there, two runs that leave the same pages in use leave
      the same blocks on every free list. */
  lemma RunsAgree(ss: seq<State>, tt: seq<State>, n: nat)
    requires Run(ss, n) && Run(tt, n)
    requires SamePages(ss[|ss| - 1].live, tt[|tt| - 1].live)
    ensures ss[|ss| - 1].free == tt[|tt| - 1].free
  {
    RunKeepsInv(ss, n);
    RunKeepsInv(tt, n);
    var s, t := ss[|ss| - 1], tt[|tt| - 1];
    forall p: nat ensures Covers(s.free, p) <==> Covers(t.free, p) {
      NoPageTwice(s, n, p);
      NoPageTwice(t, n, p);
      CoversUnion(s.free, s.live, p);
      CoversUnion(t.free, t.live, p);
    }
    SamePagesSameBlocks(s.free, t.free);
  }

  /** An allocation undone by the free of its block leaves the state as it was,
      and that free never runs past the lists. */
  lemma AllocThenFree(s: State, t: State, u: State, b: Block, r: nat, n: nat)
    requires Inv(s, n) && AllocStep(s, t, b, r)
    ensures FreeStep(t, s, Block(b.start, r))
    ensures FreeStep(t, u, Block(b.start, r)) ==> u == s
  {
    var a := Block(b.start, r);
    TakeThenRelease(s.free, b, r);
    NoPageTwice(s, n, b.start);
    assert b.Has(b.start) && a.Has(b.start);
    assert Covers(s.free, b.start);
    assert t.live - {a} == s.live;
  }

  /** What does not overrun the lists with a freed does not without, nor once a
      is merged. */
  lemma FewerOverruns(f: set<Block>, a: Block, b: Block)
    requires Coalesced(f) && Apart(f, a) && Apart(f, b)
    requires a.Aligned() && b.Aligned() && a.order < BUDDY_MAX_ORDER && b.order < BUDDY_MAX_ORDER
    requires !Overruns(f + {a}, b) && !Overruns(f + {b}, a)
    ensures !Overruns(f, b) && !Overruns(Release(f, a), b)
  {
    forall p: nat
      ensures Covers(f + {a}, p) <==> Covers(f, p) || a.Has(p)
      ensures Covers(f + {b}, p) <==> Covers(f, p) || b.Has(p)
    {
      AddCovers(f, a, p);
      AddCovers(f, b, p);
    }
    assert !Overruns(f, a);
    ReleaseKeeps(f, a);
  }

  /** The state after two live blocks are freed does not depend on the order. */
  lemma FreesCommute(s: State, a: Block, b: Block, n: nat)
    requires Inv(s, n) && a in s.live && b in s.live && a != b
    requires !Overruns(s.free + {a}, b) && !Overruns(s.free + {b}, a)
    ensures var ta := State(Release(s.free, a), s.live - {a});
            var tb := State(Release(s.free, b), s.live - {b});
            var t := State(Release(ta.free, b), ta.live - {b});
            FreeStep(s, ta, a) && FreeStep(ta, t, b) && FreeStep(s, tb, b) && FreeStep(tb, t, a)
  {
    LiveApart(s, n, a);
    LiveApart(s, n, b);
    assert Apart({a}, b);
    ReleasesCommute(s.free, a, b);
    FewerOverruns(s.free, a, b);
    FewerOverruns(s.free, b, a);
    assert s.live - {a} - {b} == s.live - {b} - {a};
  }

  // ----- counting -----

  function OfOrder(f: set<Block>, k: nat): set<Block> {
    set b | b in f && b.order == k
  }

  /** Sum over the orders below k of the number of blocks times their size. */
  function Total(f: set<Block>, k: nat): nat {
    if k == 0 then 0 else Total(f, k - 1) + |OfOrder(f, k - 1)| * Pow2(k - 1)
  }

  ghost function PagesOf(f: set<Block>, n: nat): set<nat> {
    set p: nat | p < n && Covers(f, p)
  }

  function Interval(lo: nat, m: nat): (ps: set<nat>)
    ensures |ps| == m && forall p: nat :: p in ps <==> lo <= p < lo + m
  {
    if m == 0 then {} else Interval(lo, m - 1) + {lo + m - 1}
  }

  lemma {:induction false} TotalAdds(f: set<Block>, b: Block, k: nat)
    requires b !in f
    ensures Total(f + {b}, k) == Total(f, k) + if b.order < k then Pow2(b.order) else 0
  {
    if k > 0 {
      TotalAdds(f, b, k - 1);
      if b.order == k - 1 {
        assert OfOrder(f + {b}, k - 1) == OfOrder(f, k - 1) + {b};
        OneMore(|OfOrder(f, k - 1)|, Pow2(k - 1));
      } else {
        assert OfOrder(f + {b}, k - 1) == OfOrder(f, k - 1);
      }
    }
  }

  lemma {:induction false} TotalOfNone(k: nat)
    ensures Total({}, k) == 0
  {
    if k > 0 {
      TotalOfNone(k - 1);
      assert OfOrder({}, k - 1) == {};
    }
  }

  lemma PagesAdd(f: set<Block>, b: Block, n: nat)
    requires b.Aligned() && Apart(f, b)
    requires forall p: nat :: b.Has(p) ==> p < n
    ensures |PagesOf(f + {b}, n)| == |PagesOf(f, n)| + Pow2(b.order)
  {
    var ps := Interval(b.start, Pow2(b.order));
    forall p: nat
      ensures p in PagesOf(f + {b}, n) <==> p in PagesOf(f, n) || p in ps
      ensures !(p in PagesOf(f, n) && p in ps)
    {
      BlockIsInterval(b, p);
      AddCovers(f, b, p);
    }
    assert PagesOf(f + {b}, n) == PagesOf(f, n) + ps;
  }

  /** The per-order sum counts exactly the pages of the free blocks. */
  lemma {:induction false} TotalCountsPages(f: set<Block>, n: nat)
    requires AllAligned(f) && Separate(f)
    requires forall p: nat :: Covers(f, p) ==> p < n
    ensures Total(f, BUDDY_MAX_ORDER) == |PagesOf(f, n)|
    decreases |f|
  {
    if f == {} {
      TotalOfNone(BUDDY_MAX_ORDER);
      assert PagesOf(f, n) == {};
    } else {
      var b :| b in f;
      var g := f - {b};
      assert f == g + {b};
      forall p: nat ensures Covers(f, p) <==> Covers(g, p) || b.Has(p) {
        AddCovers(g, b, p);
      }
      TotalCountsPages(g, n);
      TotalAdds(g, b, BUDDY_MAX_ORDER);
      assert Apart(g, b);
      PagesAdd(g, b, n);
    }
  }

  lemma SameTotal(s: State, t: State, a: Block, n: nat)
    requires Inv(s, n) && Inv(t, n) && a.Aligned() && Apart(t.free, a)
    requires forall p: nat :: Covers(s.free, p) <==> Covers(t.free, p) || a.Has(p)
    ensures Total(s.free, BUDDY_MAX_ORDER) == Total(t.free, BUDDY_MAX_ORDER) + Pow2(a.order)
  {
    forall p: nat
      ensures Covers(s.free, p) ==> p < n
      ensures Covers(t.free, p) ==> p < n
      ensures Covers(t.free + {a}, p) <==> Covers(s.free, p)
    {
      CoversUnion(s.free, s.live, p);
      CoversUnion(t.free, t.live, p);
      AddCovers(t.free, a, p);
    }
    TotalCountsPages(s.free, n);
    TotalCountsPages(t.free, n);
    PagesAdd(t.free, a, n);
    assert PagesOf(t.free + {a}, n) == PagesOf(s.free, n);
  }

  /** An allocation of order r lowers the total by 2^r, whatever was split. */
  lemma AllocLowersTotal(s: State, t: State, b: Block, r: nat, n: nat)
    requires Inv(s, n) && AllocStep(s, t, b, r)
    ensures Total(t.free, BUDDY_MAX_ORDER) + Pow2(r) == Total(s.free, BUDDY_MAX_ORDER)
  {
    AllocKeepsInv(s, t, b, r, n);
    TakeKeeps(s.free, b, r);
    SameTotal(s, t, Block(b.start, r), n);
  }

  /** A free of order k raises the total by 2^k, whatever was merged. */
  lemma FreeRaisesTotal(s: State, t: State, b: Block, n: nat)
    requires Inv(s, n) && FreeStep(s, t, b)
    ensures Total(t.free, BUDDY_MAX_ORDER) == Total(s.free, BUDDY_MAX_ORDER) + Pow2(b.order)
  {
    FreeKeepsInv(s, t, b, n);
    LiveApart(s, n, b);
    ReleaseKeeps(s.free, b);
    SameTotal(t, s, b, n);
  }
}
