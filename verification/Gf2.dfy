/** Polynomials over GF(2), written as coefficient sequences with the highest
    power first, and division by a generator with leading coefficient 1. */
module Gf2 {
  type Poly = seq<bool>

  function Zeros(n: nat): (p: Poly)
    ensures |p| == n && forall i :: 0 <= i < n ==> !p[i]
  {
    seq(n, i => false)
  }

  /** Addition, coefficient by coefficient. */
  function Add(a: Poly, b: Poly): (p: Poly)
    requires |a| == |b|
    ensures |p| == |a| && forall i :: 0 <= i < |a| ==> p[i] == (a[i] != b[i])
  {
    seq(|a|, i requires 0 <= i < |a| => a[i] != b[i])
  }

  /** `g`, or nothing, moved down `n` places. */
  function Place(n: nat, b: bool, g: Poly): (p: Poly)
    ensures |p| == n + |g| && forall i :: 0 <= i < |p| ==> p[i] == (n <= i && b && g[i - n])
  {
    Zeros(n) + (if b then g else Zeros(|g|))
  }

  /** Schoolbook multiplication: (q x + b) g == (q g) x + b g. */
  function Mul(q: Poly, g: Poly): (p: Poly)
    requires g != []
    ensures |p| == |q| + |g| - 1
  {
    if q == [] then Zeros(|g| - 1)
    else Add(Mul(q[..|q| - 1], g) + [false], Place(|q| - 1, q[|q| - 1], g))
  }

  /** `p` is `q` times `g` plus `r`, with `r` of lower degree than `g`. */
  ghost predicate Divides(p: Poly, g: Poly, q: Poly, r: Poly) {
    g != [] && |p| == |q| + |r| && |r| == |g| - 1 && p == Add(Mul(q, g), Zeros(|q|) + r)
  }

  ghost predicate IsGenerator(g: Poly) {
    2 <= |g| && g[0]
  }

  // ---- Quotient and remainder are unique ----

  lemma MulAt(f: Poly, b: bool, g: Poly, i: nat)
    requires g != [] && i < |f| + |g|
    ensures Mul(f + [b], g)[i] == ((i < |f| + |g| - 1 && Mul(f, g)[i]) != (|f| <= i && b && g[i - |f|]))
  {
    assert (f + [b])[..|f|] == f;
    var high, low := Mul(f, g) + [false], Place(|f|, b, g);
    assert Mul(f + [b], g) == Add(high, low);
    assert Add(high, low)[i] == (high[i] != low[i]);
  }

  lemma TopCoefficients(f: Poly, b: bool, f': Poly, b': bool, g: Poly)
    requires IsGenerator(g) && |f| == |f'|
    requires forall i :: 0 <= i <= |f| ==> Mul(f + [b], g)[i] == Mul(f' + [b'], g)[i]
    ensures forall i :: 0 <= i < |f| ==> Mul(f, g)[i] == Mul(f', g)[i]
    ensures f == f' ==> b == b'
  {
    forall i | 0 <= i < |f| ensures Mul(f, g)[i] == Mul(f', g)[i] {
      MulAt(f, b, g, i);
      MulAt(f', b', g, i);
    }
    MulAt(f, b, g, |f|);
    MulAt(f', b', g, |f|);
  }

  /** The top |q| coefficients of the product determine q. */
  lemma {:induction false} QuotientUnique(q: Poly, q': Poly, g: Poly)
    requires IsGenerator(g) && |q| == |q'|
    requires forall i :: 0 <= i < |q| ==> Mul(q, g)[i] == Mul(q', g)[i]
    ensures q == q'
  {
    if q != [] {
      var n := |q| - 1;
      assert q == q[..n] + [q[n]] && q' == q'[..n] + [q'[n]];
      TopCoefficients(q[..n], q[n], q'[..n], q'[n], g);
      QuotientUnique(q[..n], q'[..n], g);
    }
  }

  lemma DividesAt(p: Poly, g: Poly, q: Poly, r: Poly, i: nat)
    requires Divides(p, g, q, r) && i < |p|
    ensures p[i] == (Mul(q, g)[i] != (if i < |q| then false else r[i - |q|]))
  {
  }

  lemma DivisionUnique(p: Poly, g: Poly, q: Poly, r: Poly, q': Poly, r': Poly)
    requires IsGenerator(g) && Divides(p, g, q, r) && Divides(p, g, q', r')
    ensures q == q' && r == r'
  {
    forall i | 0 <= i < |p| ensures (if i < |q| then Mul(q, g)[i] == Mul(q', g)[i] else true) {
      DividesAt(p, g, q, r, i);
      DividesAt(p, g, q', r', i);
    }
    QuotientUnique(q, q', g);
    forall i | 0 <= i < |r| ensures r[i] == r'[i] {
      DividesAt(p, g, q, r, |q| + i);
      DividesAt(p, g, q', r', |q| + i);
    }
  }

  // ---- A shift register divides ----

  /** One clock of the register: shift `b` in, and subtract `g` when a 1 leaves. */
  function Feed(r: Poly, b: bool, g: Poly): (r': Poly)
    requires IsGenerator(g) && |r| == |g| - 1
    ensures |r'| == |r|
    ensures forall i :: 0 <= i < |r| ==> r'[i] == ((if i + 1 < |r| then r[i + 1] else b) != (r[0] && g[i + 1]))
  {
    seq(|r|, i requires 0 <= i < |r| => (if i + 1 < |r| then r[i + 1] else b) != (r[0] && g[i + 1]))
  }

  function Rem(p: Poly, g: Poly): (r: Poly)
    requires IsGenerator(g)
    ensures |r| == |g| - 1
  {
    if p == [] then Zeros(|g| - 1) else Feed(Rem(p[..|p| - 1], g), p[|p| - 1], g)
  }

  function Quotient(p: Poly, g: Poly): (q: Poly)
    requires IsGenerator(g)
    ensures |q| == |p|
  {
    if p == [] then [] else Quotient(p[..|p| - 1], g) + [Rem(p[..|p| - 1], g)[0]]
  }

  /** Bring down one more coefficient. */
  lemma DivisionStep(p: Poly, g: Poly, q: Poly, r: Poly, b: bool)
    requires IsGenerator(g) && Divides(p, g, q, r)
    ensures Divides(p + [b], g, q + [r[0]], Feed(r, b, g))
  {
    var q', r' := q + [r[0]], Feed(r, b, g);
    var sum := Add(Mul(q', g), Zeros(|q'|) + r');
    forall i | 0 <= i < |p| + 1 ensures (p + [b])[i] == sum[i] {
      MulAt(q, r[0], g, i);
      if i < |p| {
        DividesAt(p, g, q, r, i);
      }
    }
  }

  /** The register ends in the remainder: every polynomial is a multiple of g plus it. */
  lemma {:induction false} RemDivides(p: Poly, g: Poly)
    requires IsGenerator(g)
    ensures Divides(Zeros(|g| - 1) + p, g, Quotient(p, g), Rem(p, g))
  {
    var d := |g| - 1;
    if p == [] {
      assert Zeros(d) + p == Add(Mul([], g), Zeros(0) + Zeros(d));
    } else {
      var f, b := p[..|p| - 1], p[|p| - 1];
      RemDivides(f, g);
      DivisionStep(Zeros(d) + f, g, Quotient(f, g), Rem(f, g), b);
      assert Zeros(d) + p == (Zeros(d) + f) + [b];
    }
  }

  // ---- Linearity ----

  lemma FeedLinear(r: Poly, b: bool, s: Poly, c: bool, g: Poly)
    requires IsGenerator(g) && |r| == |s| == |g| - 1
    ensures Feed(Add(r, s), b != c, g) == Add(Feed(r, b, g), Feed(s, c, g))
  {
    var t := Add(r, s);
    assert forall i :: 0 <= i < |r| ==> Feed(t, b != c, g)[i] == Add(Feed(r, b, g), Feed(s, c, g))[i];
  }

  lemma {:induction false} RemLinear(a: Poly, b: Poly, g: Poly)
    requires IsGenerator(g) && |a| == |b|
    ensures Rem(Add(a, b), g) == Add(Rem(a, g), Rem(b, g))
  {
    if a == [] {
      assert Add(Rem(a, g), Rem(b, g)) == Zeros(|g| - 1);
    } else {
      var n := |a| - 1;
      RemLinear(a[..n], b[..n], g);
      assert Add(a, b)[..n] == Add(a[..n], b[..n]);
      FeedLinear(Rem(a[..n], g), a[n], Rem(b[..n], g), b[n], g);
    }
  }

  /** Clock the register `n` times with no input. */
  function Feeds(r: Poly, n: nat, g: Poly): (r': Poly)
    requires IsGenerator(g) && |r| == |g| - 1
    ensures |r'| == |r|
  {
    if n == 0 then r else Feed(Feeds(r, n - 1, g), false, g)
  }

  lemma {:induction false} FeedsLinear(r: Poly, s: Poly, n: nat, g: Poly)
    requires IsGenerator(g) && |r| == |s| == |g| - 1
    ensures Feeds(Add(r, s), n, g) == Add(Feeds(r, n, g), Feeds(s, n, g))
  {
    if n > 0 {
      FeedsLinear(r, s, n - 1, g);
      FeedLinear(Feeds(r, n - 1, g), false, Feeds(s, n - 1, g), false, g);
    }
  }

  /** Appending at most as many coefficients as the register holds: they end up
      in the register unreduced, on top of what was there. */
  lemma {:induction false} RemAppend(x: Poly, w: Poly, g: Poly)
    requires IsGenerator(g) && |w| <= |g| - 1
    ensures Rem(x + w, g) == Add(Feeds(Rem(x, g), |w|, g), Zeros(|g| - 1 - |w|) + w)
  {
    var d := |g| - 1;
    if w == [] {
      assert x + w == x;
      assert Add(Rem(x, g), Zeros(d) + w) == Rem(x, g);
    } else {
      var v, b := w[..|w| - 1], w[|w| - 1];
      RemAppend(x, v, g);
      assert (x + w)[..|x + w| - 1] == x + v;
      var old', in' := Feeds(Rem(x, g), |v|, g), Zeros(d - |v|) + v;
      FeedLinear(old', false, in', b, g);
      assert Feed(in', b, g) == Zeros(d - |w|) + w;
    }
  }

  // ---- Error patterns ----

  /** With constant coefficient 1, x is invertible modulo g. */
  lemma FeedKeepsNonzero(r: Poly, g: Poly)
    requires IsGenerator(g) && g[|g| - 1] && |r| == |g| - 1
    ensures Feed(r, false, g) == Zeros(|r|) <==> r == Zeros(|r|)
  {
    var r' := Feed(r, false, g);
    assert r'[|r| - 1] == r[0];
    if r' == Zeros(|r|) {
      forall i | 0 < i < |r| ensures !r[i] {
        assert !r'[i - 1];
      }
    }
  }

  lemma {:induction false} RemTrailingZeros(x: Poly, n: nat, g: Poly)
    requires IsGenerator(g) && g[|g| - 1]
    ensures Rem(x + Zeros(n), g) == Zeros(|g| - 1) <==> Rem(x, g) == Zeros(|g| - 1)
  {
    if n == 0 {
      assert x + Zeros(0) == x;
    } else {
      RemTrailingZeros(x, n - 1, g);
      assert (x + Zeros(n))[..|x| + n - 1] == x + Zeros(n - 1);
      FeedKeepsNonzero(Rem(x + Zeros(n - 1), g), g);
    }
  }

  lemma LeadingZeros(i: nat, w: Poly, g: Poly)
    requires IsGenerator(g) && g[|g| - 1] && |w| == |g| - 1
    ensures Rem(Zeros(i) + w, g) == w
  {
    RemTrailingZeros([], i, g);
    assert [] + Zeros(i) == Zeros(i);
    RemAppend(Zeros(i), w, g);
    FeedsOfZero(|w|, g);
    var sum := Add(Zeros(|w|), Zeros(0) + w);
    assert forall k :: 0 <= k < |w| ==> sum[k] == w[k];
  }

  /** A non-zero pattern no wider than the degree of g is no multiple of g. */
  lemma BurstIsNoMultiple(e: Poly, i: nat, w: Poly, j: nat, g: Poly)
    requires IsGenerator(g) && g[|g| - 1] && |w| == |g| - 1
    requires e == Zeros(i) + w + Zeros(j) && w != Zeros(|w|)
    ensures Rem(e, g) != Zeros(|g| - 1)
  {
    RemTrailingZeros(Zeros(i) + w, j, g);
    LeadingZeros(i, w, g);
  }

  lemma {:induction false} FeedsOfZero(n: nat, g: Poly)
    requires IsGenerator(g)
    ensures Feeds(Zeros(|g| - 1), n, g) == Zeros(|g| - 1)
  {
    if n > 0 {
      FeedsOfZero(n - 1, g);
    }
  }

  /** True when an odd number of coefficients is 1. */
  function Odd(p: Poly): bool {
    p != [] && Odd(p[..|p| - 1]) != p[|p| - 1]
  }

  lemma {:induction false} OddOfSum(a: Poly, b: Poly)
    requires |a| == |b|
    ensures Odd(Add(a, b)) == (Odd(a) != Odd(b))
  {
    if a != [] {
      var n := |a| - 1;
      OddOfSum(a[..n], b[..n]);
      assert Add(a, b)[..n] == Add(a[..n], b[..n]);
    }
  }

  lemma {:induction false} OddFromFront(p: Poly)
    requires p != []
    ensures Odd(p) == (p[0] != Odd(p[1..]))
  {
    if |p| > 1 {
      OddFromFront(p[..|p| - 1]);
      assert p[..|p| - 1][1..] == p[1..][..|p| - 2];
    }
  }

  /** A generator of even weight is a multiple of x + 1: division keeps parity. */
  lemma {:induction false} RemKeepsParity(p: Poly, g: Poly)
    requires IsGenerator(g) && !Odd(g)
    ensures Odd(Rem(p, g)) == Odd(p)
  {
    if p == [] {
      OddOfZeros(|g| - 1);
    } else {
      var r, b := Rem(p[..|p| - 1], g), p[|p| - 1];
      RemKeepsParity(p[..|p| - 1], g);
      OddFromFront(r);
      OddFromFront(g);
      OddOfZeros(|g| - 1);
      assert (r[1..] + [b])[..|r| - 1] == r[1..];
      var back := if r[0] then g[1..] else Zeros(|r|);
      OddOfSum(r[1..] + [b], back);
      assert Feed(r, b, g) == Add(r[1..] + [b], back);
    }
  }

  lemma {:induction false} OddOfZeros(n: nat)
    ensures !Odd(Zeros(n))
  {
    if n > 0 {
      OddOfZeros(n - 1);
      assert Zeros(n)[..n - 1] == Zeros(n - 1);
    }
  }
}
