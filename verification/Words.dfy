/** Unsigned 64-bit words, signed ints and longs, and the page rounding of
    include/types.h. */
module Words {

  const WORD: nat := 0x1_0000_0000_0000_0000
  const INT: nat := 0x1_0000_0000
  const PAGE_SIZE: nat := 4096

  /** What an int holds of x: its value modulo 2^32, in two's complement. */
  function Int(x: int): (r: int)
    ensures -(INT / 2) <= r < INT / 2 && (x - r) % INT == 0
    ensures -(INT / 2) <= x < INT / 2 ==> r == x
  {
    var u := x % INT;
    if u < INT / 2 then u else u - INT
  }

  /** What a long holds of x. */
  function Long(x: int): (r: int)
    ensures -(WORD / 2) <= r < WORD / 2 && (x - r) % WORD == 0
    ensures -(WORD / 2) <= x < WORD / 2 ==> r == x
  {
    var u := x % WORD;
    if u < WORD / 2 then u else u - WORD
  }

  lemma IntWraps(x: int, t: int)
    ensures Int(x + INT * t) == Int(x)
  {
  }

  lemma LongWraps(x: int, t: int)
    ensures Long(x + WORD * t) == Long(x)
  {
  }

  /** An int that has wrapped round goes on as if it had not. */
  lemma IntAdds(a: int, b: int)
    ensures Int(Int(a) + b) == Int(a + b)
  {
    var r := Int(a);
    var t := (a - r) / INT;
    assert a + b == (r + b) + INT * t;
    IntWraps(r + b, t);
  }

  lemma Distribute(r: int, t: int, m: int, w: int)
    ensures (r + w * t) * m == r * m + w * (t * m)
  {
  }

  lemma IntGrows(a: int, m: int, b: int)
    ensures Int(Int(a) * m + b) == Int(a * m + b)
  {
    var r := Int(a);
    var t := (a - r) / INT;
    assert a == r + INT * t;
    hide Int;
    Distribute(r, t, m, INT);
    IntWraps(r * m + b, t * m);
  }

  lemma LongGrows(a: int, m: int, b: int)
    ensures Long(Long(a) * m + b) == Long(a * m + b)
  {
    var r := Long(a);
    var t := (a - r) / WORD;
    assert a == r + WORD * t;
    hide Long;
    Distribute(r, t, m, WORD);
    LongWraps(r * m + b, t * m);
  }

  lemma OneMore(c: nat, m: nat)
    ensures (c + 1) * m == c * m + m
  {
  }

  lemma QuotientAndRest(num: nat, base: nat)
    requires base > 0
    ensures num == num / base * base + num % base
    ensures num / base * base <= num < num / base * base + base
    ensures num % base == 0 ==> num == num / base * base
  {
  }

  lemma Less(q: nat, q': nat, m: nat)
    requires q < q'
    ensures q * m + m <= q' * m
  {
    var d := q' - q - 1;
    assert q' * m == (q + 1 + d) * m == q * m + m + d * m;
  }

  lemma DivUnique(a: nat, m: nat, q: nat, r: nat)
    requires r < m && a == q * m + r
    ensures a / m == q && a % m == r
  {
    var q', r' := a / m, a % m;
    assert a == q' * m + r' && r' < m;
    if q' < q {
      Less(q', q, m);
    } else if q < q' {
      Less(q, q', m);
    }
  }

  function RoundDown(a: nat): nat {
    a - a % PAGE_SIZE
  }

  function RoundUp(a: nat): nat {
    RoundDown((a + PAGE_SIZE - 1) % WORD)
  }

  lemma WrapOnce(x: int)
    requires 0 <= x < WORD
    ensures x % WORD == x && (x - WORD) % WORD == x && (x + WORD) % WORD == x
  {
  }

  /** A difference that wrapped round is made good by the sum. */
  lemma WrapCancels(b: nat, x: int)
    requires 0 <= x + WORD && x < WORD && 0 <= b + x < WORD
    ensures (b + x % WORD) % WORD == b + x
  {
    WrapOnce(if x >= 0 then x else x + WORD);
    WrapOnce(b + x);
  }

  /** Comparing a page address with a rounded address. */
  lemma DownPages(a: nat, pa: nat)
    requires pa % PAGE_SIZE == 0
    ensures pa < RoundDown(a) <==> pa + PAGE_SIZE <= a
    ensures RoundDown(a) <= pa <==> a < pa + PAGE_SIZE
  {
  }

  lemma UpPages(a: nat, pa: nat)
    requires pa % PAGE_SIZE == 0 && a + PAGE_SIZE <= WORD
    ensures RoundUp(a) <= pa <==> a <= pa
    ensures a <= RoundUp(a) < WORD
  {
    WrapOnce(a + PAGE_SIZE - 1);
    DownPages(a + PAGE_SIZE - 1, pa);
  }

  lemma Rounds(a: nat)
    ensures RoundDown(a) % PAGE_SIZE == 0 && RoundDown(a) <= a < RoundDown(a) + PAGE_SIZE
    ensures a + PAGE_SIZE <= WORD ==> RoundUp(a) % PAGE_SIZE == 0 && a <= RoundUp(a) < a + PAGE_SIZE
  {
    if a + PAGE_SIZE <= WORD {
      WrapOnce(a + PAGE_SIZE - 1);
    }
  }
}
