/** Runs of page_decref: what a sequence of dropped references does to the
    buddy allocator. */
module Drops {
  import opened Dyadic
  import opened FreeSet
  import opened Runs
  import opened Buddy
  import opened PageTables

  /** The allocator before any reference is dropped. */
  datatype Start = Start(s: State, m: seq<Meta>)

  /** The live blocks whose every reference is among those dropped. */
  ghost function Dead(st: Start, xs: seq<nat>): set<Block> {
    set b | b in st.s.live && b.start < |st.m| && 0 < st.m[b.start].ref == Count(xs, b.start)
  }

  /** The pages that are free once the references xs are dropped. */
  ghost function FreeAfter(st: Start, xs: seq<nat>): iset<nat> {
    iset p: nat | Covers(st.s.free, p) || Covers(Dead(st, xs), p)
  }

  /** No page loses more references than it has, and a page that loses its last
      one heads a live block. */
  ghost predicate Droppable(st: Start, xs: seq<nat>) {
    forall x :: x in xs ==>
      && x < |st.m| && Count(xs, x) <= st.m[x].ref
      && (Count(xs, x) == st.m[x].ref ==> exists b :: b in st.s.live && b.start == x)
  }

  /** Since st, exactly the references xs have been dropped, and exactly the
      blocks that lost their last one have been freed. */
  ghost predicate Dropped(a: Allocator, st: Start, xs: seq<nat>)
    reads a, a.pages, a.freeList, a.nodes
  {
    && a.Valid() && |st.m| == |a.pages|
    && (forall p :: 0 <= p < |a.pages| ==> a.pages[p].pp_ref + Count(xs, p) == st.m[p].ref)
    && a.live == st.s.live - Dead(st, xs)
    && forall p: nat :: Covers(a.Free({}), p) <==> p in FreeAfter(st, xs)
  }

  lemma {:induction false} CountBound(xs: seq<nat>, ys: seq<nat>, x: nat)
    requires xs <= ys
    ensures Count(xs, x) <= Count(ys, x)
  {
    assert ys == xs + ys[|xs|..];
    CountConcat(xs, ys[|xs|..], x);
  }

  lemma CountOne(xs: seq<nat>, x: nat, y: nat)
    ensures Count(xs + [x], y) == Count(xs, y) + if x == y then 1 else 0
  {
    CountConcat(xs, [x], y);
  }

  lemma {:induction false} CountMember(xs: seq<nat>, x: nat)
    ensures Count(xs, x) > 0 ==> x in xs
  {
    if xs != [] && xs[0] != x {
      CountMember(xs[1..], x);
    }
  }

  /** More dropped references leave more pages free. */
  lemma FreeAfterMore(st: Start, xs: seq<nat>, ys: seq<nat>)
    requires xs <= ys && Droppable(st, ys)
    ensures FreeAfter(st, xs) <= FreeAfter(st, ys)
  {
    forall p: nat | p in FreeAfter(st, xs) ensures p in FreeAfter(st, ys) {
      if Covers(Dead(st, xs), p) {
        var b :| b in Dead(st, xs) && b.Has(p);
        CountBound(xs, ys, b.start);
        CountMember(ys, b.start);
        assert b in Dead(st, ys);
      }
    }
  }

  /** Dropping the last reference to x kills the live block at x, any other
      reference kills none. */
  lemma OneMoreDead(st: Start, xs: seq<nat>, x: nat)
    requires x < |st.m| && Count(xs, x) < st.m[x].ref
    ensures Dead(st, xs + [x]) ==
            Dead(st, xs) + set b | b in st.s.live && b.start == x && Count(xs, x) + 1 == st.m[x].ref
  {
    forall b: Block
      ensures Count(xs + [x], b.start) == Count(xs, b.start) + if x == b.start then 1 else 0
    {
      CountOne(xs, x, b.start);
    }
  }

  /** What page_decref needs to know about the page, from what was promised of
      the whole run. */
  lemma NextDrop(a: Allocator, st: Start, xs: seq<nat>, x: nat, total: seq<nat>)
    requires Dropped(a, st, xs) && Droppable(st, total) && xs + [x] <= total
    ensures x < |a.pages| && Count(xs, x) < st.m[x].ref && a.pages[x].pp_ref == st.m[x].ref - Count(xs, x)
    ensures a.pages[x].pp_ref == 1 ==>
              && a.BlockAt(x) in a.live && a.BlockAt(x).Aligned() && a.BlockAt(x).order < BUDDY_MAX_ORDER
              && Coalesced(a.Free({})) && Apart(a.Free({}), a.BlockAt(x))
              && Dead(st, xs + [x]) == Dead(st, xs) + {a.BlockAt(x)}
    ensures a.pages[x].pp_ref != 1 ==> Dead(st, xs + [x]) == Dead(st, xs)
  {
    assert x in xs + [x];
    assert total[|xs|] == x;
    CountBound(xs + [x], total, x);
    CountOne(xs, x, x);
    OneMoreDead(st, xs, x);
    if a.pages[x].pp_ref == 1 {
      var b :| b in st.s.live && b.start == x;
      assert b !in Dead(st, xs);
      forall c | c in st.s.live && c.start == x ensures c == a.BlockAt(x) && c in a.live {
        assert c !in Dead(st, xs);
      }
      LiveApart(a.Now(), |a.pages|, b);
    }
  }

  lemma FreeAfterDead(st: Start, xs: seq<nat>, x: nat, b: Block, p: nat)
    requires Dead(st, xs + [x]) == Dead(st, xs) + {b}
    ensures p in FreeAfter(st, xs + [x]) <==> p in FreeAfter(st, xs) || b.Has(p)
  {
    AddCovers(Dead(st, xs), b, p);
  }

  /** One page_decref in a run of them. It fails only if the whole run frees an
      aligned run of pages too big for any list. */
  method DropRef(a: Allocator, x: nat, ghost st: Start, ghost xs: seq<nat>, ghost total: seq<nat>) returns (ok: bool)
    requires Dropped(a, st, xs) && Droppable(st, total) && xs + [x] <= total && x < |a.pages|
    modifies a`lists, a`live, a.freeList, a.nodes, a.pages
    ensures if ok then Dropped(a, st, xs + [x]) else HoldsRun(FreeAfter(st, total))
  {
    hide Allocator.Valid, Count;
    ghost var free, b, last, live := a.Free({}), a.BlockAt(x), a.pages[x].pp_ref == 1, a.live;
    NextDrop(a, st, xs, x, total);
    forall p ensures Count(xs + [x], p) == Count(xs, p) + if x == p then 1 else 0 {
      CountOne(xs, x, p);
    }
    if last {
      forall p: nat ensures p in FreeAfter(st, xs + [x]) <==> p in FreeAfter(st, xs) || b.Has(p) {
        FreeAfterDead(st, xs, x, b, p);
      }
    }
    ok := a.PageDecref(x);
    if !ok {
      OverrunHoldsRun(free, b, FreeAfter(st, xs + [x]));
      FreeAfterMore(st, xs + [x], total);
      MoreHoldsRun(FreeAfter(st, xs + [x]), FreeAfter(st, total));
    } else if last {
      ReleaseKeeps(free, b);
    }
  }

  /** When the run has succeeded, the pages it has freed hold no such run. */
  lemma DroppedHoldsNoRun(a: Allocator, st: Start, xs: seq<nat>)
    requires Dropped(a, st, xs)
    ensures !HoldsRun(FreeAfter(st, xs))
  {
    CoalescedHoldsNoRun(a.Free({}), FreeAfter(st, xs));
  }

  /** Nothing is dropped yet. */
  lemma NothingDropped(a: Allocator, st: Start)
    requires a.Valid() && st == Start(a.Now(), a.Metas())
    ensures Dropped(a, st, [])
  {
    assert Dead(st, []) == {};
  }
}
