/** Powers of two, shifts, and the aligned blocks of 2^k pages that the buddy
    allocator hands out. */
module Dyadic {

  function Pow2(k: nat): (r: nat)
    ensures r >= 1
  {
    if k == 0 then 1 else 2 * Pow2(k - 1)
  }

  lemma TwiceProduct(x: nat, y: nat)
    ensures x * (2 * y) == 2 * (x * y)
  {
  }

  lemma {:induction false} Pow2Add(a: nat, b: nat)
    ensures Pow2(a + b) == Pow2(a) * Pow2(b)
  {
    if b > 0 {
      Pow2Add(a, b - 1);
      TwiceProduct(Pow2(a), Pow2(b - 1));
    }
  }

  /** p >> k */
  function Shr(p: nat, k: nat): nat {
    if k == 0 then p else Shr(p, k - 1) / 2
  }

  /** q << k */
  function Shl(q: nat, k: nat): nat
    decreases k
  {
    if k == 0 then q else Shl(2 * q, k - 1)
  }

  /** Toggles the lowest bit. */
  function Flip(q: nat): nat {
    if q % 2 == 0 then q + 1 else q - 1
  }

  /** The 2^order pages from page number start on. */
  datatype Block = Block(start: nat, order: nat) {

    predicate Aligned() {
      start == Shl(Shr(start, order), order)
    }

    predicate Has(p: nat) {
      Shr(p, order) == Shr(start, order)
    }

    /** The block of the same order that shares its parent. */
    function Buddy(): Block {
      Block(Shl(Flip(Shr(start, order)), order), order)
    }

    /** The block of the next order that holds this one. */
    function Parent(): Block {
      Block(Shl(Shr(start, order + 1), order + 1), order + 1)
    }

    /** The block of order k, no smaller than this one, that holds it. */
    function Ancestor(k: nat): Block
      requires order <= k
    {
      Block(Shl(Shr(start, k), k), k)
    }
  }

  lemma {:induction false} ShlIsTimes(q: nat, k: nat)
    ensures Shl(q, k) == q * Pow2(k)
    decreases k
  {
    if k > 0 {
      ShlIsTimes(2 * q, k - 1);
      var m := Pow2(k - 1);
      assert (2 * q) * m == q * (2 * m);
    }
  }

  lemma {:induction false} ShlStep(q: nat, k: nat)
    ensures Shl(q + 1, k) == Shl(q, k) + Pow2(k)
    decreases k
  {
    if k > 0 {
      ShlStep(2 * q, k - 1);
      ShlStep(2 * q + 1, k - 1);
    }
  }

  lemma {:induction false} ShlMonotone(q: nat, r: nat, k: nat)
    requires q <= r
    ensures Shl(q, k) <= Shl(r, k)
    decreases k
  {
    if k > 0 {
      ShlMonotone(2 * q, 2 * r, k - 1);
    }
  }

  lemma {:induction false} ShrOfShl(q: nat, k: nat)
    ensures Shr(Shl(q, k), k) == q
    decreases k
  {
    if k > 0 {
      ShrOfShl(2 * q, k - 1);
    }
  }

  /** The low bits can be shifted out first. */
  lemma {:induction false} ShrLowFirst(p: nat, k: nat)
    requires k > 0
    ensures Shr(p, k) == Shr(p / 2, k - 1)
  {
    if k > 1 {
      ShrLowFirst(p, k - 1);
    }
  }

  lemma {:induction false} ShrAdd(p: nat, j: nat, k: nat)
    ensures Shr(p, j + k) == Shr(Shr(p, j), k)
  {
    if k > 0 {
      ShrAdd(p, j, k - 1);
    }
  }

  /** Two pages in one block of order j are in one block of every larger order. */
  lemma {:induction false} ShrCoarser(p: nat, q: nat, j: nat, k: nat)
    requires j <= k && Shr(p, j) == Shr(q, j)
    ensures Shr(p, k) == Shr(q, k)
  {
    ShrAdd(p, j, k - j);
    ShrAdd(q, j, k - j);
  }

  lemma {:induction false} ShrBounds(p: nat, k: nat)
    ensures Shl(Shr(p, k), k) <= p < Shl(Shr(p, k) + 1, k)
  {
    if k > 0 {
      ShrBounds(p, k - 1);
      var a, q := Shr(p, k - 1), Shr(p, k);
      ShlMonotone(2 * q, a, k - 1);
      ShlMonotone(a + 1, 2 * q + 2, k - 1);
    }
  }

  /** Membership by shifting is membership in the interval of 2^order pages. */
  lemma BlockIsInterval(b: Block, p: nat)
    requires b.Aligned()
    ensures b.Has(p) <==> b.start <= p < b.start + Pow2(b.order)
  {
    var q, r := Shr(b.start, b.order), Shr(p, b.order);
    ShlStep(q, b.order);
    ShrBounds(p, b.order);
    if r < q {
      ShlMonotone(r + 1, q, b.order);
    } else if q < r {
      ShlMonotone(q + 1, r, b.order);
    }
  }

  /** An aligned block is identified by any of its pages and its order. */
  lemma SameBlock(a: Block, b: Block, p: nat)
    requires a.Aligned() && b.Aligned() && a.order == b.order
    requires a.Has(p) && b.Has(p)
    ensures a == b
  {
  }

  /** The buddy relation is an irreflexive involution on aligned blocks. */
  lemma BuddyInvolution(b: Block)
    requires b.Aligned()
    ensures b.Buddy().Aligned() && b.Buddy().Buddy() == b && b.Buddy() != b
    ensures b.Buddy().Parent() == b.Parent()
    ensures forall p: nat :: b.Has(p) ==> !b.Buddy().Has(p)
  {
    var q := Shr(b.start, b.order);
    ShrOfShl(Flip(q), b.order);
  }

  /** A parent is aligned and is tiled by the block and its buddy, the lower of
      which it starts at. */
  lemma ParentSplits(b: Block)
    requires b.Aligned()
    ensures b.Parent().Aligned()
    ensures b.Parent().start == if b.start < b.Buddy().start then b.start else b.Buddy().start
    ensures forall p: nat :: b.Parent().Has(p) <==> b.Has(p) || b.Buddy().Has(p)
  {
    var k, q := b.order, Shr(b.start, b.order);
    ShrOfShl(Flip(q), k);
    ShrOfShl(q / 2, k + 1);
    assert Shl(q / 2, k + 1) == Shl(2 * (q / 2), k);
    ShlStep(if q % 2 == 0 then q else q - 1, k);
    forall p: nat ensures b.Parent().Has(p) <==> b.Has(p) || b.Buddy().Has(p) {
    }
  }

  lemma PairInParent(b: Block)
    requires b.Aligned()
    ensures b.Buddy().start != b.start
    ensures b.Parent().start == if b.start < b.Buddy().start then b.start else b.Buddy().start
    ensures b.Parent().Has(b.start) && b.Parent().Has(b.Buddy().start)
  {
    ParentSplits(b);
    BuddyInvolution(b);
    assert b.Has(b.start) && b.Buddy().Has(b.Buddy().start);
  }

  /** The lower half of an aligned block starts where the block does; its buddy
      is the upper half. */
  lemma LowerHalf(b: Block)
    requires b.Aligned() && b.order > 0
    ensures var h := Block(b.start, b.order - 1);
            h.Aligned() && h.Parent() == b && h.Buddy() == Block(b.start + Pow2(b.order - 1), b.order - 1)
  {
    var k, q := b.order - 1, Shr(b.start, b.order);
    assert b.start == Shl(2 * q, k);
    ShrOfShl(2 * q, k);
    ShlStep(2 * q, k);
  }

  /** Two aligned blocks that share a page are nested. */
  lemma Nested(a: Block, b: Block, p: nat)
    requires a.Aligned() && b.Aligned() && a.order <= b.order
    requires a.Has(p) && b.Has(p)
    ensures forall x: nat :: a.Has(x) ==> b.Has(x)
    ensures a.order < b.order ==> forall x: nat :: a.Parent().Has(x) ==> b.Has(x)
  {
    forall x: nat | a.Has(x) ensures b.Has(x) {
      ShrCoarser(x, p, a.order, b.order);
    }
    if a.order < b.order {
      ParentSplits(a);
      assert a.Parent().Has(p);
      forall x: nat | a.Parent().Has(x) ensures b.Has(x) {
        ShrCoarser(x, p, a.order + 1, b.order);
      }
    }
  }

  /** The aligned block of order k around a block holds all of it. */
  lemma AncestorHolds(b: Block, k: nat)
    requires b.order <= k
    ensures b.Ancestor(k).Aligned()
    ensures forall p: nat :: b.Has(p) ==> b.Ancestor(k).Has(p)
  {
    ShrOfShl(Shr(b.start, k), k);
    forall p: nat | b.Has(p) ensures b.Ancestor(k).Has(p) {
      ShrCoarser(p, b.start, b.order, k);
    }
  }

  lemma AncestorParent(b: Block, k: nat)
    requires b.order <= k
    ensures b.Ancestor(k).Parent() == b.Ancestor(k + 1)
  {
    ShrOfShl(Shr(b.start, k), k);
    ShrCoarser(b.Ancestor(k).start, b.start, k, k + 1);
  }
}
