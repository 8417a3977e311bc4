// Bytes, little-endian words, bits and byte-range stores.

module Bytes {

  datatype Option<T> = None | Some(value: T)

  type byte = x: int | 0 <= x < 256

  function Pow256(w: nat): (p: nat)
    ensures p >= 1
  {
    if w == 0 then 1 else 256 * Pow256(w - 1)
  }

  function LittleEndian(n: nat, w: nat): (bs: seq<byte>)
    ensures |bs| == w
  {
    if w == 0 then [] else [n % 256] + LittleEndian(n / 256, w - 1)
  }

  function FromLittleEndian(bs: seq<byte>): (n: nat) {
    if bs == [] then 0 else bs[0] + 256 * FromLittleEndian(bs[1..])
  }

  // A word that fits its width is read back as written.
  lemma {:induction false} LittleEndianRoundTrip(n: nat, w: nat)
    requires n < Pow256(w)
    ensures FromLittleEndian(LittleEndian(n, w)) == n
  {
    if w > 0 {
      LittleEndianRoundTrip(n / 256, w - 1);
      assert LittleEndian(n, w)[1..] == LittleEndian(n / 256, w - 1);
    }
  }

  // Byte i is the digit of weight 256^i.
  lemma {:induction false} LittleEndianDigit(n: nat, w: nat, i: nat)
    requires i < w
    ensures LittleEndian(n, w)[i] == n / Pow256(i) % 256
  {
    if i > 0 {
      LittleEndianDigit(n / 256, w - 1, i - 1);
      DivDiv(n, 256, Pow256(i - 1));
    }
  }

  lemma {:induction false} DivDiv(n: nat, a: nat, b: nat)
    requires a > 0 && b > 0
    ensures a * b > 0 && n / (a * b) == n / a / b
  {
    var q, r, t := n / a / b, n / a % b, n % a;
    assert n / a == q * b + r;
    assert n == (q * b + r) * a + t == q * (a * b) + (r * a + t);
    assert r * a <= (b - 1) * a;
    DivModUnique(n, a * b, q, r * a + t);
  }

  // Two's complement in w bytes.
  function ToUnsigned(v: int, w: nat): nat {
    v % Pow256(w)
  }

  function ToSigned(u: nat, w: nat): int {
    if 2 * u >= Pow256(w) then u - Pow256(w) else u
  }

  predicate FitsSigned(v: int, w: nat) {
    0 <= 2 * v + Pow256(w) && 2 * v < Pow256(w)
  }

  // Exactly the values that fit survive.
  lemma SignedRoundTrip(v: int, w: nat)
    ensures ToUnsigned(v, w) < Pow256(w)
    ensures ToSigned(ToUnsigned(v, w), w) == v <==> FitsSigned(v, w)
  {
    if FitsSigned(v, w) {
      if v < 0 {
        DivModUnique(v, Pow256(w), -1, v + Pow256(w));
      } else {
        DivModUnique(v, Pow256(w), 0, v);
      }
    }
  }

  lemma DivModUnique(x: int, d: int, q: int, r: int)
    requires d > 0 && x == q * d + r && 0 <= r < d
    ensures x / d == q && x % d == r
  {
    var q1, r1 := x / d, x % d;
    assert x == q1 * d + r1;
    assert (q - q1) * d == r1 - r;
    assert q - q1 >= 1 ==> (q - q1) * d >= d;
    assert q - q1 <= -1 ==> (q - q1) * d <= -d;
  }

  // Bit k of n, counted from the least significant one: `n & (1 << k)`.
  predicate Bit(n: nat, k: nat) {
    if k == 0 then n % 2 == 1 else Bit(n / 2, k - 1)
  }

  // n with bit k switched on or off: `n |= 1 << k` and `n &= ~(1 << k)`.
  function WithBit(n: nat, k: nat, on: bool): nat {
    if k == 0 then n - n % 2 + (if on then 1 else 0) else n % 2 + 2 * WithBit(n / 2, k - 1, on)
  }

  lemma {:induction false} BitOfWithBit(n: nat, k: nat, on: bool, j: nat)
    ensures Bit(WithBit(n, k, on), j) == if j == k then on else Bit(n, j)
    decreases k
  {
    if k > 0 && j > 0 {
      BitOfWithBit(n / 2, k - 1, on, j - 1);
    }
  }

  function Pow2(m: nat): (p: nat)
    ensures p >= 1
  {
    if m == 0 then 1 else 2 * Pow2(m - 1)
  }

  lemma {:induction false} WithBitBound(n: nat, k: nat, on: bool, m: nat)
    requires n < Pow2(m) && k < m
    ensures WithBit(n, k, on) < Pow2(m)
  {
    var half := n / 2;
    assert n == 2 * half + n % 2 && half < Pow2(m - 1);
    if k > 0 {
      WithBitBound(n / 2, k - 1, on, m - 1);
    }
  }

  // Bit k has weight 2^k.
  lemma {:induction false} BitIsDigit(n: nat, k: nat)
    ensures Bit(n, k) <==> n / Pow2(k) % 2 == 1
  {
    if k > 0 {
      BitIsDigit(n / 2, k - 1);
      DivDiv(n, 2, Pow2(k - 1));
    }
  }

  // The same on one byte.
  function SetBit(b: byte, k: nat, on: bool): (r: byte)
    requires k < 8
    ensures forall j: nat :: Bit(r, j) == if j == k then on else Bit(b, j)
  {
    assert Pow2(8) == 2 * (2 * (2 * (2 * (2 * (2 * (2 * (2 * Pow2(0))))))));
    WithBitBound(b, k, on, 8);
    assert forall j: nat :: Bit(WithBit(b, k, on), j) == (if j == k then on else Bit(b, j)) by {
      forall j: nat
        ensures Bit(WithBit(b, k, on), j) == if j == k then on else Bit(b, j)
      {
        BitOfWithBit(b, k, on, j);
      }
    }
    WithBit(b, k, on)
  }

  // The bytes bs stored at offset off.
  function Splice(s: seq<byte>, off: nat, bs: seq<byte>): (r: seq<byte>)
    requires off + |bs| <= |s|
    ensures |r| == |s|
    ensures r[off..off + |bs|] == bs
    ensures r[..off] == s[..off] && r[off + |bs|..] == s[off + |bs|..]
  {
    s[..off] + bs + s[off + |bs|..]
  }

  // Two rows agree on a range.
  ghost predicate Agree(s: seq<byte>, r: seq<byte>, lo: nat, hi: nat) {
    lo < hi ==> hi <= |s| && hi <= |r| && s[lo..hi] == r[lo..hi]
  }

  lemma AgreeWithin(s: seq<byte>, r: seq<byte>, lo: nat, hi: nat, a: nat, b: nat)
    requires Agree(s, r, lo, hi) && lo <= a <= b <= hi
    ensures Agree(s, r, a, b)
  {
    forall x | a <= x < b
      ensures x < |s| && x < |r| && s[x] == r[x]
    {
      assert s[lo..hi][x - lo] == s[x] && r[lo..hi][x - lo] == r[x];
    }
  }

  // A range that misses the store.
  lemma SpliceAgree(s: seq<byte>, off: nat, bs: seq<byte>, lo: nat, hi: nat)
    requires off + |bs| <= |s| && hi <= |s|
    requires hi <= off || off + |bs| <= lo
    ensures Agree(s, Splice(s, off, bs), lo, hi)
  {
    var r := Splice(s, off, bs);
    if lo < hi {
      if hi <= off {
        assert s[lo..hi] == s[..off][lo..hi] && r[lo..hi] == r[..off][lo..hi];
      } else {
        var e := off + |bs|;
        assert s[lo..hi] == s[e..][lo - e..hi - e] && r[lo..hi] == r[e..][lo - e..hi - e];
      }
    }
  }

  lemma SpliceCommute(s: seq<byte>, a: nat, as': seq<byte>, b: nat, bs: seq<byte>)
    requires a + |as'| <= b && b + |bs| <= |s|
    ensures Splice(Splice(s, a, as'), b, bs) == Splice(Splice(s, b, bs), a, as')
  {
    var mid := s[a + |as'|..b];
    assert Splice(Splice(s, a, as'), b, bs) == s[..a] + as' + mid + bs + s[b + |bs|..];
    assert Splice(Splice(s, b, bs), a, as') == s[..a] + as' + mid + bs + s[b + |bs|..];
  }

  // A multi-byte store through a pointer, or memcpy.
  method Store(buf: array<byte>, off: nat, bs: seq<byte>)
    requires off + |bs| <= buf.Length
    modifies buf
    ensures buf[..] == Splice(old(buf[..]), off, bs)
  {
    var i := 0;
    while i < |bs|
      invariant 0 <= i <= |bs|
      invariant forall j :: 0 <= j < buf.Length ==> buf[j] == if off <= j < off + i then bs[j - off] else old(buf[j])
    {
      buf[off + i] := bs[i];
      i := i + 1;
    }
    assert buf[..] == old(buf[..off]) + bs + old(buf[off + |bs|..]);
  }

  // The bytes s lie at offset from.
  ghost predicate At(buf: seq<byte>, from: nat, s: seq<byte>) {
    from + |s| <= |buf| && buf[from..from + |s|] == s
  }

  lemma AtPrefix(a: seq<byte>, b: seq<byte>, from: nat, s: seq<byte>)
    requires At(a, from, s)
    ensures At(a + b, from, s)
  {
    assert (a + b)[from..from + |s|] == a[from..from + |s|];
  }

  lemma SubSlice(buf: seq<byte>, offset: nat, n: nat, from: nat, len: nat)
    requires offset + n <= |buf| && from + len <= n
    ensures buf[offset..offset + n][from..from + len] == buf[offset + from..offset + from + len]
  {
    var a := buf[offset..offset + n];
    var x, y := a[from..from + len], buf[offset + from..offset + from + len];
    forall k | 0 <= k < len
      ensures x[k] == y[k]
    {
      assert a[from + k] == buf[offset + (from + k)];
    }
  }

  lemma AtWithin(buf: seq<byte>, offset: nat, a: seq<byte>, from: nat, s: seq<byte>)
    requires At(buf, offset, a) && At(a, from, s)
    ensures At(buf, offset + from, s)
  {
    SubSlice(buf, offset, |a|, from, |s|);
  }
}
