/** Bounds and multiples of natural numbers, as the other modules need them. */
module Numbers {

  function Min(a: nat, b: nat): nat {
    if a < b then a else b
  }

  function Max(a: nat, b: nat): nat {
    if a < b then b else a
  }

  predicate Multiple(n: nat, w: nat)
    requires w > 0
  {
    n % w == 0
  }

  lemma RemainderIs(n: nat, q: nat, w: nat, r: nat)
    requires w > 0 && r < w && n == q * w + r
    ensures n % w == r && n / w == q
  {
    var d := n / w;
    assert n == d * w + n % w;
    if d < q {
      ScaledLess(d, q, w);
    } else if d > q {
      ScaledLess(q, d, w);
    }
  }

  lemma {:induction false} ScaledLess(a: nat, b: nat, w: nat)
    requires a < b
    ensures a * w + w <= b * w
    decreases b
  {
    assert (b - 1) * w + w == b * w;
    if a < b - 1 {
      ScaledLess(a, b - 1, w);
    }
  }

  lemma QuotientFits(n: nat, w: nat, k: nat)
    requires w > 0 && k <= n / w
    ensures k * w <= n
  {
    var q := n / w;
    assert q * w <= n;
    if k < q {
      ScaledLess(k, q, w);
    }
  }

  lemma MultipleOf(k: nat, w: nat)
    requires w > 0
    ensures Multiple(k * w, w)
  {
    RemainderIs(k * w, k, w, 0);
  }

  lemma AddMultiple(a: nat, b: nat, w: nat)
    requires w > 0 && Multiple(b, w)
    ensures (a + b) % w == a % w
  {
    var q, k := a / w, b / w;
    assert a == q * w + a % w && b == k * w;
    assert a + b == (q + k) * w + a % w;
    RemainderIs(a + b, q + k, w, a % w);
  }

  lemma ShortMultiple(n: nat, w: nat)
    requires n < w && Multiple(n, w)
    ensures n == 0
  {
    RemainderIs(n, 0, w, n);
  }

  lemma DropMultiple(n: nat, w: nat)
    requires w > 0 && n >= w && Multiple(n, w)
    ensures Multiple(n - w, w)
  {
    RemainderIs(w, 1, w, 0);
    AddMultiple(n - w, w, w);
  }
}
