/** Rounding up to an alignment, as src/tempbuff.c and src/slaballoc.c both do it. */
module Rounding {

  ghost predicate MultipleOf(n: int, align: int) { exists q :: n == align * q }

  /** The size a request takes: the next multiple of the alignment. */
  function Rounded(size: nat, align: nat): (r: nat)
    requires align > 0
    ensures size <= r < size + align && MultipleOf(r, align)
  {
    var q := size / align;
    if size % align == 0 then
      assert size == align * q;
      size
    else
      assert size + (align - size % align) == align * (q + 1);
      size + (align - size % align)
  }

  lemma MultiplesCompose(n: int, a: int, b: int)
    requires MultipleOf(n, a) && MultipleOf(a, b)
    ensures MultipleOf(n, b)
  {
    var p :| n == a * p;
    var q :| a == b * q;
    assert n == b * (q * p);
  }

  lemma {:induction false} MultipleHasNoRest(d: int, q: nat)
    requires d > 0
    ensures (d * q) % d == 0
  {
    var n := d * q;
    var k := n / d;
    Bounds(q - k, d);
    assert d * (q - k) == n - d * k == n % d;
  }

  lemma Bounds(k: int, d: int)
    requires d > 0
    ensures k >= 1 ==> d * k >= d
    ensures k <= -1 ==> d * k <= -d
  {
  }

  /** What is rounded stays as it is. */
  lemma RoundedStays(n: nat, align: nat)
    requires align > 0 && MultipleOf(n, align)
    ensures Rounded(n, align) == n
  {
    var q :| n == align * q;
    if q < 0 {
      Bounds(q, align);
    }
    MultipleHasNoRest(align, q);
  }
}
