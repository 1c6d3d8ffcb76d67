/** Bytes, exclusive or, little-endian integers and equally sized slots of a byte string. */
module Bytes {
  import opened Bits

  type Byte = b: nat | b < 256

  function Xor8(a: Byte, b: Byte): Byte {
    XorBound(a, b, 8);
    assert Pow2(8) == 256;
    BitXor(a, b)
  }

  function Xor(a: seq<Byte>, b: seq<Byte>): (r: seq<Byte>)
    requires |a| == |b|
    ensures |r| == |a|
  {
    seq(|a|, i requires 0 <= i < |a| => Xor8(a[i], b[i]))
  }

  /** Bit by bit: a bit of the result is set exactly when the two bits differ. */
  lemma XorIsBitwise(a: seq<Byte>, b: seq<Byte>, i: nat, k: nat)
    requires |a| == |b| && i < |a|
    ensures Bit(Xor(a, b)[i], k) <==> Bit(a[i], k) != Bit(b[i], k)
  {
    BitOfXor(a[i], b[i], k);
  }

  /** The integer a little-endian byte string denotes. */
  function FromLittleEndian(s: seq<Byte>): nat {
    if s == [] then 0 else s[0] + 256 * FromLittleEndian(s[1..])
  }

  lemma MulDistributes(a: nat, b: nat, c: nat)
    ensures a * (b + c) == a * b + a * c
  {
  }

  lemma MulAssociates(a: nat, b: nat, c: nat)
    ensures a * (b * c) == (a * b) * c
  {
  }

  /** The low `k` bits of a little-endian integer are those of its first 8 bytes, for `k` up to 64. */
  lemma LowBitsOfEightBytes(s: seq<Byte>, k: nat)
    requires |s| >= 8 && k <= 64
    ensures BitAnd(FromLittleEndian(s[..8]), Pow2(k) - 1) == FromLittleEndian(s) % Pow2(k)
  {
    MaskIsMod(FromLittleEndian(s[..8]), k);
    SplitLittleEndian(s, 8);
    HighPartVanishes(FromLittleEndian(s[..8]), FromLittleEndian(s[8..]), k, 64);
  }

  lemma {:induction false} SplitLittleEndian(s: seq<Byte>, n: nat)
    requires n <= |s|
    ensures FromLittleEndian(s) == FromLittleEndian(s[..n]) + Pow2(8 * n) * FromLittleEndian(s[n..])
    decreases n
  {
    if n == 0 {
      assert s[..0] == [] && s[0..] == s;
    } else {
      SplitLittleEndian(s[1..], n - 1);
      assert s[1..][..n - 1] == s[..n][1..] && s[1..][n - 1..] == s[n..];
      var low, high := FromLittleEndian(s[..n][1..]), FromLittleEndian(s[n..]);
      var p := Pow2(8 * (n - 1));
      EightMoreBits(8 * (n - 1));
      assert Pow2(8 * n) == 256 * p;
      LiftSplit(s[0], low, p, high);
    }
  }

  lemma LiftSplit(b: nat, low: nat, p: nat, high: nat)
    ensures b + 256 * (low + p * high) == b + 256 * low + (256 * p) * high
  {
    MulDistributes(256, low, p * high);
    MulAssociates(256, p, high);
  }

  lemma EightMoreBits(k: nat)
    ensures Pow2(k + 8) == 256 * Pow2(k)
  {
    assert Pow2(k + 8) == 2 * Pow2(k + 7) == 4 * Pow2(k + 6) == 8 * Pow2(k + 5) == 16 * Pow2(k + 4);
    assert Pow2(k + 4) == 2 * Pow2(k + 3) == 4 * Pow2(k + 2) == 8 * Pow2(k + 1) == 16 * Pow2(k);
  }

  lemma {:induction false} Pow2Sum(a: nat, b: nat)
    ensures Pow2(a + b) == Pow2(a) * Pow2(b)
    decreases a
  {
    if a > 0 {
      Pow2Sum(a - 1, b);
      assert 2 * (Pow2(a - 1) * Pow2(b)) == (2 * Pow2(a - 1)) * Pow2(b);
    }
  }

  lemma HighPartVanishes(low: nat, high: nat, k: nat, w: nat)
    requires k <= w
    ensures (low + Pow2(w) * high) % Pow2(k) == low % Pow2(k)
  {
    Pow2Sum(k, w - k);
    MultipleVanishes(low, Pow2(k), Pow2(w - k), high);
  }

  lemma MultipleVanishes(low: nat, m: nat, n: nat, high: nat)
    requires m >= 1
    ensures (low + (m * n) * high) % m == low % m
  {
    var q, r, t := low / m, low % m, n * high;
    MulAssociates(m, n, high);
    MulDistributes(m, q, t);
    DivModUnique(low + m * t, m, q + t, r);
  }

  // ---------- Slots ----------

  /** Where the `k`-th slot starts: `k * size`, by repeated addition. */
  function At(k: nat, size: nat): nat {
    if k == 0 then 0 else At(k - 1, size) + size
  }

  lemma {:induction false} AtIsProduct(k: nat, size: nat)
    ensures At(k, size) == k * size
    decreases k
  {
    if k > 0 {
      AtIsProduct(k - 1, size);
      MulDistributes(size, k - 1, 1);
    }
  }

  lemma {:induction false} SlotsApart(size: nat, i: nat, j: nat)
    requires i < j
    ensures At(i, size) + size <= At(j, size)
    decreases j
  {
    var m := j - 1;
    if i < m {
      SlotsApart(size, i, m);
    }
  }

  /** The `k`-th of the equally sized slots of `s`. */
  function Slot<T>(s: seq<T>, size: nat, k: nat): (r: seq<T>)
    requires At(k, size) + size <= |s|
    ensures |r| == size
  {
    s[At(k, size)..At(k, size) + size]
  }

  /** `s` is made of `n` slots. */
  ghost predicate Slotted<T>(s: seq<T>, size: nat, n: nat) {
    |s| == At(n, size)
  }

  lemma SlotInRange<T>(s: seq<T>, size: nat, n: nat, k: nat)
    requires Slotted(s, size, n) && k < n
    ensures At(k, size) + size <= |s|
  {
    SlotsApart(size, k, n);
  }

  function Splice<T>(s: seq<T>, from: nat, c: seq<T>): (r: seq<T>)
    requires from + |c| <= |s|
    ensures |r| == |s|
  {
    s[..from] + c + s[from + |c|..]
  }

  /** Overwriting one slot changes that slot and no other. */
  lemma SpliceSlot<T>(s: seq<T>, size: nat, i: nat, c: seq<T>, k: nat)
    requires |c| == size && At(i, size) + size <= |s| && At(k, size) + size <= |s|
    ensures Slot(Splice(s, At(i, size), c), size, k) == if k == i then c else Slot(s, size, k)
  {
    if k < i { SlotsApart(size, k, i); }
    if i < k { SlotsApart(size, i, k); }
    var s' := Splice(s, At(i, size), c);
    if k == i {
      assert s'[At(i, size)..At(i, size) + size] == c;
    } else {
      assert s'[At(k, size)..At(k, size) + size] == s[At(k, size)..At(k, size) + size];
    }
  }

  lemma CutAt<T>(s: seq<T>, m: nat)
    requires m <= |s|
    ensures s == s[..m] + s[m..]
  {
  }

  /** The concatenation of equally sized pieces. */
  function Join<T>(pieces: seq<seq<T>>): seq<T> {
    if pieces == [] then [] else Join(pieces[..|pieces| - 1]) + pieces[|pieces| - 1]
  }

  lemma {:induction false} JoinLength<T>(pieces: seq<seq<T>>, size: nat)
    requires forall p :: p in pieces ==> |p| == size
    ensures |Join(pieces)| == At(|pieces|, size)
    decreases |pieces|
  {
    var n := |pieces|;
    if n > 0 {
      assert pieces[n - 1] in pieces;
      JoinLength(pieces[..n - 1], size);
    }
  }

  ghost predicate SlotIs<T>(s: seq<T>, size: nat, k: nat, c: seq<T>) {
    At(k, size) + size <= |s| && Slot(s, size, k) == c
  }

  lemma {:induction false} JoinSlots<T>(pieces: seq<seq<T>>, size: nat, s: seq<T>)
    requires forall p :: p in pieces ==> |p| == size
    requires |s| == At(|pieces|, size)
    requires forall k :: 0 <= k < |pieces| ==> SlotIs(s, size, k, pieces[k])
    ensures Join(pieces) == s
    decreases |pieces|
  {
    var n := |pieces|;
    if n > 0 {
      var m := At(n - 1, size);
      var front := pieces[..n - 1];
      forall k | 0 <= k < n - 1 ensures SlotIs(s[..m], size, k, front[k]) {
        SlotsApart(size, k, n - 1);
        assert SlotIs(s, size, k, pieces[k]);
        assert Slot(s[..m], size, k) == Slot(s, size, k);
      }
      JoinSlots(front, size, s[..m]);
      assert SlotIs(s, size, n - 1, pieces[n - 1]);
      CutAt(s, m);
    }
  }

  // ---------- Buffers ----------

  /** `dst[from..].copy_from_slice(src)` */
  method CopyInto<T>(dst: array<T>, from: nat, src: seq<T>)
    requires from + |src| <= dst.Length
    modifies dst
    ensures dst[..] == Splice(old(dst[..]), from, src)
  {
    for i := 0 to |src|
      invariant dst[..] == Splice(old(dst[..]), from, src[..i])
    {
      dst[from + i] := src[i];
      assert src[..i + 1] == src[..i] + [src[i]];
    }
    assert src[..|src|] == src;
  }

  /** Exclusive or of a buffer with bytes of the same length, byte by byte. */
  method XorInto(x: array<Byte>, other: seq<Byte>)
    requires |other| == x.Length
    modifies x
    ensures x[..] == Xor(old(x[..]), other)
  {
    for i := 0 to x.Length
      invariant x[i..] == old(x[i..])
      invariant x[..i] == Xor(old(x[..]), other)[..i]
    {
      x[i] := Xor8(x[i], other[i]);
    }
  }
}
