/** Multi-limb natural numbers (gmp/gmp.h): add, subtract, compare and negate limb arrays in place. */
module Mpn {

  /** GMP_LIMB_BITS is 32 and there are no nail bits. */
  const BASE := 0x1_0000_0000

  type limb = x: int | 0 <= x < BASE

  ghost function Pow(i: nat): nat {
    if i == 0 then 1 else BASE * Pow(i - 1)
  }

  /** A digit at position i. */
  ghost function Scaled(i: nat, d: nat): nat {
    Pow(i) * d
  }

  /** The number that limbs spell, the least significant first. */
  ghost function Value(s: seq<limb>): nat {
    if s == [] then 0 else Value(s[..|s| - 1]) + Scaled(|s| - 1, s[|s| - 1])
  }

  lemma ValueAppend(s: seq<limb>, d: limb)
    ensures Value(s + [d]) == Value(s) + Scaled(|s|, d)
  {
    assert (s + [d])[..|s|] == s;
  }

  lemma ValueNext(s: seq<limb>, i: nat)
    requires i < |s|
    ensures Value(s[..i + 1]) == Value(s[..i]) + Scaled(i, s[i])
  {
    assert s[..i + 1] == s[..i] + [s[i]];
    ValueAppend(s[..i], s[i]);
  }

  lemma ScaledSum(i: nat, a: nat, b: nat)
    ensures Scaled(i, a + b) == Scaled(i, a) + Scaled(i, b)
  {
  }

  lemma ScaledUp(i: nat, d: nat)
    ensures Scaled(i, BASE * d) == Scaled(i + 1, d) && Scaled(i, 0) == 0
  {
    assert Pow(i + 1) == BASE * Pow(i);
    Commute(Pow(i), d);
  }

  lemma Commute(p: nat, d: nat)
    ensures p * (BASE * d) == (BASE * p) * d
  {
  }

  /** One column of an addition, or of a subtraction read backwards. */
  lemma Column(i: nat, w: nat, out: nat, x: nat, y: nat, c: nat)
    requires w + BASE * out == x + y + c
    ensures Scaled(i, w) + Scaled(i + 1, out) == Scaled(i, x) + Scaled(i, y) + Scaled(i, c)
  {
    hide Scaled;
    ScaledSum(i, w, BASE * out);
    ScaledUp(i, out);
    ScaledSum(i, x + y, c);
    ScaledSum(i, x, y);
  }

  /** Two numbers that agree from limb i on differ as their low parts do. */
  lemma {:induction false} SameRest(s: seq<limb>, t: seq<limb>, i: nat)
    requires i <= |s| == |t| && s[i..] == t[i..]
    ensures Value(s) + Value(t[..i]) == Value(t) + Value(s[..i])
  {
    hide Scaled;
    var n := |s| - 1;
    if i == |s| {
      assert s[..i] == s && t[..i] == t;
    } else {
      assert s[n] == s[i..][n - i] == t[i..][n - i] == t[n];
      assert s[..n][i..] == s[i..][..n - i] == t[i..][..n - i] == t[..n][i..];
      assert s[..n][..i] == s[..i] && t[..n][..i] == t[..i];
      SameRest(s[..n], t[..n], i);
    }
  }

  lemma {:induction false} ValueBound(s: seq<limb>)
    ensures Value(s) < Scaled(|s|, 1)
  {
    hide Scaled;
    if s == [] {
      ScaledOne();
    } else {
      var n := |s| - 1;
      ValueBound(s[..n]);
      ScaledSum(n, 1, s[n]);
      ScaledMonotone(n, 1 + s[n] as nat, BASE);
      ScaledUp(n, 1);
    }
  }

  lemma ScaledOne()
    ensures Scaled(0, 1) == 1
  {
  }

  lemma ScaledMonotone(i: nat, a: nat, b: nat)
    requires a <= b
    ensures Scaled(i, a) <= Scaled(i, b)
  {
  }

  ghost predicate Prefix(a: array<limb>, s: seq<limb>)
    reads a
  {
    |s| <= a.Length && forall k :: 0 <= k < |s| ==> a[k] == s[k]
  }

  /** The limbs from i to n are still those of s. */
  ghost predicate Intact(a: array<limb>, s: seq<limb>, i: nat)
    reads a
  {
    |s| <= a.Length && forall k :: i <= k < |s| ==> a[k] == s[k]
  }

  /** mpn_add_n; the destination may be either source. */
  method AddN(wp: array<limb>, xp: array<limb>, yp: array<limb>, n: nat) returns (c: nat)
    requires n <= wp.Length && n <= xp.Length && n <= yp.Length
    modifies wp
    ensures c <= 1 && Value(wp[..n]) + Scaled(n, c) == Value(old(xp[..n])) + Value(old(yp[..n]))
    ensures forall k :: n <= k < wp.Length ==> wp[k] == old(wp[k])
  {
    hide Value, Scaled, Pow;
    ghost var x, y, w: seq<limb> := xp[..n], yp[..n], [];
    c := 0;
    var i: nat := 0;
    Start(x, y);
    while i < n
      invariant 0 <= i <= n && |w| == i && c <= 1 && Prefix(wp, w) && Intact(xp, x, i) && Intact(yp, y, i)
      invariant Value(w) + Scaled(i, c) == Value(x[..i]) + Value(y[..i])
      invariant forall k :: n <= k < wp.Length ==> wp[k] == old(wp[k])
    {
      var sum := xp[i] as int + yp[i] as int + c;
      var r: limb, out: nat := sum % BASE, sum / BASE;
      Column(i, r, out, x[i], y[i], c);
      ValueAppend(w, r);
      ValueNext(x, i);
      ValueNext(y, i);
      w, c := w + [r], out;
      wp[i] := r;
      i := i + 1;
    }
    assert wp[..n] == w && x[..n] == x && y[..n] == y;
  }

  lemma Start(x: seq<limb>, y: seq<limb>)
    ensures Value([]) == 0 && Scaled(0, 0) == 0 && Value(x[..0]) == 0 && Value(y[..0]) == 0
  {
  }

  /** mpn_sub_n; the destination may be either source. */
  method SubN(wp: array<limb>, xp: array<limb>, yp: array<limb>, n: nat) returns (c: nat)
    requires n <= wp.Length && n <= xp.Length && n <= yp.Length
    modifies wp
    ensures c <= 1 && Value(wp[..n]) + Value(old(yp[..n])) == Value(old(xp[..n])) + Scaled(n, c)
    ensures forall k :: n <= k < wp.Length ==> wp[k] == old(wp[k])
  {
    hide Value, Scaled, Pow;
    ghost var x, y, w: seq<limb> := xp[..n], yp[..n], [];
    c := 0;
    var i: nat := 0;
    Start(x, y);
    while i < n
      invariant 0 <= i <= n && |w| == i && c <= 1 && Prefix(wp, w) && Intact(xp, x, i) && Intact(yp, y, i)
      invariant Value(w) + Value(y[..i]) == Value(x[..i]) + Scaled(i, c)
      invariant forall k :: n <= k < wp.Length ==> wp[k] == old(wp[k])
    {
      var diff := xp[i] as int - yp[i] as int - c;
      var r: limb, out: nat := diff % BASE, if diff < 0 then 1 else 0;
      Column(i, x[i], out, r, y[i], c);
      ValueAppend(w, r);
      ValueNext(x, i);
      ValueNext(y, i);
      w, c := w + [r], out;
      wp[i] := r;
      i := i + 1;
    }
    assert wp[..n] == w && x[..n] == x && y[..n] == y;
  }

  /** __GMPN_COPY_REST. */
  method CopyRest(dst: array<limb>, src: array<limb>, size: nat, start: nat)
    requires start <= size <= dst.Length && size <= src.Length && dst != src
    modifies dst
    ensures forall k :: 0 <= k < dst.Length ==> dst[k] == if start <= k < size then src[k] else old(dst[k])
  {
    var j := start;
    while j < size
      invariant start <= j <= size
      invariant forall k :: 0 <= k < dst.Length ==> dst[k] == if start <= k < j then src[k] else old(dst[k])
    {
      dst[j] := src[j];
      j := j + 1;
    }
  }

  /** The end of __GMPN_AORS and __GMPN_AORS_1 without a carry: the limbs from i on are copied unless they are there. */
  method Settle(dst: array<limb>, src: array<limb>, n: nat, i: nat, ghost x: seq<limb>, ghost w: seq<limb>)
    requires i <= n <= dst.Length && n <= src.Length && |x| == n && |w| == i && Prefix(dst, w) && Intact(src, x, i)
    modifies dst
    ensures |dst[..n]| == n && Value(dst[..n]) + Value(x[..i]) == Value(x) + Value(w)
    ensures forall k :: n <= k < dst.Length ==> dst[k] == old(dst[k])
  {
    hide Value;
    if dst != src {
      CopyRest(dst, src, n, i);
    }
    var all := dst[..n];
    assert all[..i] == w && all[i..] == x[i..];
    SameRest(all, x, i);
  }

  /** The carry loop of __GMPN_AORS and __GMPN_AORS_1: add one at limb i and go on while it overflows. */
  method Carry(dst: array<limb>, src: array<limb>, n: nat, start: nat, ghost x: seq<limb>, ghost low: seq<limb>, ghost v: nat)
    returns (c: nat)
    requires start <= n <= dst.Length && n <= src.Length && |x| == n && |low| == start && Prefix(dst, low) && Intact(src, x, start)
    requires Value(low) + Scaled(start, 1) == Value(x[..start]) + v
    modifies dst
    ensures c <= 1 && Value(dst[..n]) + Scaled(n, c) == Value(x) + v
    ensures forall k :: n <= k < dst.Length ==> dst[k] == old(dst[k])
  {
    hide Value, Scaled, Pow;
    ghost var w := low;
    var i := start;
    while i < n
      invariant start <= i <= n && |w| == i && Prefix(dst, w) && Intact(src, x, i)
      invariant Value(w) + Scaled(i, 1) == Value(x[..i]) + v
      invariant forall k :: n <= k < dst.Length ==> dst[k] == old(dst[k])
    {
      var r: limb := (src[i] as int + 1) % BASE;
      Column(i, r, if r == 0 then 1 else 0, x[i], 0, 1);
      ScaledUp(i, 0);
      ScaledUp(i + 1, 0);
      ValueAppend(w, r);
      ValueNext(x, i);
      w := w + [r];
      dst[i] := r;
      i := i + 1;
      if r != 0 {
        Settle(dst, src, n, i, x, w);
        ScaledUp(n, 0);
        return 0;
      }
    }
    assert dst[..n] == w && x[..n] == x;
    return 1;
  }

  /** The borrow loop: take one from limb i and go on while it was zero. */
  method Borrow(dst: array<limb>, src: array<limb>, n: nat, start: nat, ghost x: seq<limb>, ghost low: seq<limb>, ghost v: nat)
    returns (c: nat)
    requires start <= n <= dst.Length && n <= src.Length && |x| == n && |low| == start && Prefix(dst, low) && Intact(src, x, start)
    requires Value(low) + v == Value(x[..start]) + Scaled(start, 1)
    modifies dst
    ensures c <= 1 && Value(dst[..n]) + v == Value(x) + Scaled(n, c)
    ensures forall k :: n <= k < dst.Length ==> dst[k] == old(dst[k])
  {
    hide Value, Scaled, Pow;
    ghost var w := low;
    var i := start;
    while i < n
      invariant start <= i <= n && |w| == i && Prefix(dst, w) && Intact(src, x, i)
      invariant Value(w) + v == Value(x[..i]) + Scaled(i, 1)
      invariant forall k :: n <= k < dst.Length ==> dst[k] == old(dst[k])
    {
      var l := src[i];
      var r: limb := (l as int - 1) % BASE;
      Column(i, x[i], if l == 0 then 1 else 0, r, 0, 1);
      ScaledUp(i, 0);
      ScaledUp(i + 1, 0);
      ValueAppend(w, r);
      ValueNext(x, i);
      w := w + [r];
      dst[i] := r;
      i := i + 1;
      if l != 0 {
        Settle(dst, src, n, i, x, w);
        ScaledUp(n, 0);
        return 0;
      }
    }
    assert dst[..n] == w && x[..n] == x;
    return 1;
  }

  /** mpn_add; the destination may be either source. */
  method Add(wp: array<limb>, xp: array<limb>, xsize: nat, yp: array<limb>, ysize: nat) returns (c: nat)
    requires ysize <= xsize <= wp.Length && xsize <= xp.Length && ysize <= yp.Length
    modifies wp
    ensures c <= 1 && Value(wp[..xsize]) + Scaled(xsize, c) == Value(old(xp[..xsize])) + Value(old(yp[..ysize]))
    ensures forall k :: xsize <= k < wp.Length ==> wp[k] == old(wp[k])
  {
    hide Value, Scaled, Pow;
    ghost var x, y := xp[..xsize], yp[..ysize];
    assert x[..ysize] == xp[..ysize];
    Start(x, y);
    if ysize != 0 {
      var carry := AddN(wp, xp, yp, ysize);
      ghost var w := wp[..ysize];
      if carry != 0 {
        c := Carry(wp, xp, xsize, ysize, x, w, Value(y));
        return;
      }
      ScaledUp(ysize, 0);
    }
    Settle(wp, xp, xsize, ysize, x, wp[..ysize]);
    ScaledUp(xsize, 0);
    c := 0;
  }

  /** mpn_sub; the destination may be either source. */
  method Sub(wp: array<limb>, xp: array<limb>, xsize: nat, yp: array<limb>, ysize: nat) returns (c: nat)
    requires ysize <= xsize <= wp.Length && xsize <= xp.Length && ysize <= yp.Length
    modifies wp
    ensures c <= 1 && Value(wp[..xsize]) + Value(old(yp[..ysize])) == Value(old(xp[..xsize])) + Scaled(xsize, c)
    ensures forall k :: xsize <= k < wp.Length ==> wp[k] == old(wp[k])
  {
    hide Value, Scaled, Pow;
    ghost var x, y := xp[..xsize], yp[..ysize];
    assert x[..ysize] == xp[..ysize];
    Start(x, y);
    if ysize != 0 {
      var borrow := SubN(wp, xp, yp, ysize);
      ghost var w := wp[..ysize];
      if borrow != 0 {
        c := Borrow(wp, xp, xsize, ysize, x, w, Value(y));
        return;
      }
      ScaledUp(ysize, 0);
    }
    Settle(wp, xp, xsize, ysize, x, wp[..ysize]);
    ScaledUp(xsize, 0);
    c := 0;
  }

  /** mpn_add_1. */
  method Add1(dst: array<limb>, src: array<limb>, n: nat, v: limb) returns (c: nat)
    requires 1 <= n <= dst.Length && n <= src.Length
    modifies dst
    ensures c <= 1 && Value(dst[..n]) + Scaled(n, c) == Value(old(src[..n])) + v
    ensures forall k :: n <= k < dst.Length ==> dst[k] == old(dst[k])
  {
    hide Value, Scaled, Pow;
    ghost var x := src[..n];
    var l := src[0];
    var r: limb := (l as int + v as int) % BASE;
    dst[0] := r;
    FirstLimb(x, r, v, if r < v then 1 else 0);
    // The sum overflowed exactly when it came out less than a summand.
    if r < v {
      c := Carry(dst, src, n, 1, x, [r], v);
    } else {
      Settle(dst, src, n, 1, x, [r]);
      ScaledUp(n, 0);
      c := 0;
    }
  }

  lemma FirstLimb(x: seq<limb>, r: limb, v: limb, out: nat)
    requires x != []
    ensures Value([r]) == r && Value(x[..1]) == x[0] && Scaled(1, out) == BASE * out
  {
    assert [r][..0] == [] && x[..1][..0] == [];
    ScaledUp(0, out);
  }

  /** mpn_sub_1. */
  method Sub1(dst: array<limb>, src: array<limb>, n: nat, v: limb) returns (c: nat)
    requires 1 <= n <= dst.Length && n <= src.Length
    modifies dst
    ensures c <= 1 && Value(dst[..n]) + v == Value(old(src[..n])) + Scaled(n, c)
    ensures forall k :: n <= k < dst.Length ==> dst[k] == old(dst[k])
  {
    hide Value, Scaled, Pow;
    ghost var x := src[..n];
    var l := src[0];
    var r: limb := (l as int - v as int) % BASE;
    dst[0] := r;
    FirstLimb(x, r, v, if l < v then 1 else 0);
    if l < v {
      c := Borrow(dst, src, n, 1, x, [r], v);
    } else {
      Settle(dst, src, n, 1, x, [r]);
      ScaledUp(n, 0);
      c := 0;
    }
  }

  /** mpn_cmp: the sign of the difference. */
  method Cmp(xp: array<limb>, yp: array<limb>, size: nat) returns (r: int)
    requires size <= xp.Length && size <= yp.Length
    ensures r == if Value(xp[..size]) < Value(yp[..size]) then -1 else if Value(xp[..size]) == Value(yp[..size]) then 0 else 1
  {
    hide Value, Scaled, Pow;
    ghost var x, y := xp[..size], yp[..size];
    var i := size;
    while i > 0
      invariant i <= size && x[i..] == y[i..]
    {
      i := i - 1;
      if xp[i] != yp[i] {
        TopLimb(x, y, i);
        return if xp[i] > yp[i] then 1 else -1;
      }
      assert x[i..] == [x[i]] + x[i + 1..] && y[i..] == [y[i]] + y[i + 1..];
    }
    assert x[0..] == x && y[0..] == y;
    return 0;
  }

  /** The topmost limb in which two numbers differ decides. */
  lemma TopLimb(x: seq<limb>, y: seq<limb>, i: nat)
    requires i < |x| == |y| && x[i + 1..] == y[i + 1..] && x[i] != y[i]
    ensures x[i] < y[i] <==> Value(x) < Value(y)
    ensures Value(x) != Value(y)
  {
    hide Value, Scaled, Pow;
    SameRest(x, y, i + 1);
    ValueNext(x, i);
    ValueNext(y, i);
    ValueBound(x[..i]);
    ValueBound(y[..i]);
    if x[i] < y[i] {
      ScaledSum(i, x[i], 1);
      ScaledMonotone(i, x[i] as nat + 1, y[i]);
    } else {
      ScaledSum(i, y[i], 1);
      ScaledMonotone(i, y[i] as nat + 1, x[i]);
    }
  }

  /** mpn_neg_n. */
  method NegN(rp: array<limb>, up: array<limb>, n: nat) returns (cy: nat)
    requires 1 <= n <= rp.Length && n <= up.Length
    modifies rp
    ensures cy == if Value(old(up[..n])) == 0 then 0 else 1
    ensures Value(rp[..n]) + Value(old(up[..n])) == Scaled(n, cy)
    ensures forall k :: n <= k < rp.Length ==> rp[k] == old(rp[k])
  {
    hide Value, Scaled, Pow;
    ghost var u, w: seq<limb> := up[..n], [];
    cy := 0;
    var i: nat := 0;
    Start(u, u);
    while i < n
      invariant 0 <= i <= n && |w| == i && cy <= 1 && Prefix(rp, w) && Intact(up, u, i)
      invariant Value(w) + Value(u[..i]) == Scaled(i, cy)
      invariant forall k :: n <= k < rp.Length ==> rp[k] == old(rp[k])
    {
      var ul := up[i];
      var r: limb := (-(ul as int) - cy) % BASE;
      var out := if ul != 0 then 1 else cy;
      Column(i, 0, out, r, ul, cy);
      ScaledUp(i, 0);
      ValueAppend(w, r);
      ValueNext(u, i);
      w, cy := w + [r], out;
      rp[i] := r;
      i := i + 1;
    }
    assert rp[..n] == w && u[..n] == u;
    ScaledUp(n, 0);
    ValueBound(u);
    ValueBound(w);
  }
}
