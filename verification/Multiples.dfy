/** Multiples of a number. */
module Multiples {
  lemma MultiplesApart(k: nat, q: nat, w: nat)
    ensures k < q ==> (k + 1) * w <= q * w
  {
    if k < q {
      assert q * w == (k + 1) * w + (q - k - 1) * w;
    }
  }

  /** Only one multiple of `w` lies within `w` below a number. */
  lemma MultipleBelow(k: nat, q: nat, w: nat, x: nat)
    requires k * w <= x < k * w + w && q * w <= x < q * w + w
    ensures k == q
  {
    MultiplesApart(k, q, w);
    MultiplesApart(q, k, w);
  }

  lemma Divided(x: nat, w: nat)
    requires w > 0
    ensures x == x / w * w + x % w && x / w * w <= x < x / w * w + w
  {
  }

  lemma MultipleOf(k: nat, w: nat)
    requires w > 0
    ensures k * w % w == 0
  {
    Divided(k * w, w);
    MultipleBelow(k, k * w / w, w, k * w);
  }

  lemma RemainderOf(k: nat, w: nat, r: nat)
    requires r < w
    ensures (k * w + r) % w == r
  {
    var x := k * w + r;
    Divided(x, w);
    MultipleBelow(k, x / w, w, x);
  }
}
