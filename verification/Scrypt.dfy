/**
 scrypt (crates/crypto/keystore/src/scrypt.rs) against sections 4, 5 and 6 of RFC 7914. Salsa20/8 and
 the keyed hash are parameters. Block sizes are in units of 128 bytes, as in the RFC.
 */
module Scrypt {
  import opened Wrappers
  import opened Bits
  import opened Bytes
  import opened Pbkdf2

  type Chunk = s: seq<Byte> | |s| == 64 witness seq(64, _ => 0)

  type Core = Chunk -> Chunk

  function ChunkAt(s: seq<Byte>, k: nat): Chunk
    requires 64 * k + 64 <= |s|
  {
    s[64 * k..64 * k + 64]
  }

  lemma SpliceChunk(s: seq<Byte>, i: nat, c: Chunk, k: nat)
    requires 64 * i + 64 <= |s| && 64 * k + 64 <= |s|
    ensures ChunkAt(Splice(s, 64 * i, c), k) == if k == i then c else ChunkAt(s, k)
  {
    assert ChunkAt(Splice(s, 64 * i, c), k) == if k == i then c else ChunkAt(s, k);
  }

  // ---------- RFC 7914 ----------

  /** X after `i` rounds of scryptBlockMix: B[2r - 1], then X = Salsa(X xor B[i]). */
  ghost function MixX(salsa: Core, b: seq<Byte>, r: nat, i: nat): Chunk
    requires r >= 1 && |b| == 128 * r && i <= 2 * r
    decreases i
  {
    if i == 0 then ChunkAt(b, 2 * r - 1)
    else salsa(Xor(MixX(salsa, b, r, i - 1), ChunkAt(b, i - 1)))
  }

  /** Y[i], the value of X after round `i`. */
  ghost function Y(salsa: Core, b: seq<Byte>, r: nat, i: nat): Chunk
    requires r >= 1 && |b| == 128 * r && i < 2 * r
  {
    MixX(salsa, b, r, i + 1)
  }

  /** The order of the output: Y[0], Y[2], ..., Y[2r - 2], Y[1], Y[3], ..., Y[2r - 1]. */
  function Source(r: nat, k: nat): nat
    requires k < 2 * r
  {
    if k < r then 2 * k else 2 * (k - r) + 1
  }

  ghost function Pieces(salsa: Core, b: seq<Byte>, r: nat): (pieces: seq<seq<Byte>>)
    requires r >= 1 && |b| == 128 * r
    ensures |pieces| == 2 * r && forall k :: 0 <= k < 2 * r ==> pieces[k] == Y(salsa, b, r, Source(r, k))
  {
    seq(2 * r, k requires 0 <= k < 2 * r => Y(salsa, b, r, Source(r, k)))
  }

  ghost function BlockMix(salsa: Core, b: seq<Byte>, r: nat): (s: seq<Byte>)
    requires r >= 1 && |b| == 128 * r
    ensures |s| == 128 * r
  {
    var pieces := Pieces(salsa, b, r);
    JoinLength(pieces, 64);
    AtIsProduct(2 * r, 64);
    Join(pieces)
  }

  /** V[i]: the input mixed `i` times. */
  ghost function V(salsa: Core, b: seq<Byte>, r: nat, i: nat): (s: seq<Byte>)
    requires r >= 1 && |b| == 128 * r
    ensures |s| == 128 * r
    decreases i
  {
    if i == 0 then b else BlockMix(salsa, V(salsa, b, r, i - 1), r)
  }

  /** The last 64 bytes as a little-endian integer. */
  ghost function Integerify(x: seq<Byte>, r: nat): nat
    requires r >= 1 && |x| == 128 * r
  {
    FromLittleEndian(ChunkAt(x, 2 * r - 1))
  }

  /** One round of the second loop of scryptROMix. */
  ghost function Round(salsa: Core, b: seq<Byte>, r: nat, n: nat, x: seq<Byte>): (s: seq<Byte>)
    requires r >= 1 && |b| == |x| == 128 * r && n >= 1
    ensures |s| == 128 * r
  {
    BlockMix(salsa, Xor(x, V(salsa, b, r, Integerify(x, r) % n)), r)
  }

  /** X after `i` rounds. */
  ghost function RoX(salsa: Core, b: seq<Byte>, r: nat, n: nat, i: nat): (s: seq<Byte>)
    requires r >= 1 && |b| == 128 * r && n >= 1
    ensures |s| == 128 * r
    decreases i
  {
    if i == 0 then V(salsa, b, r, n)
    else Round(salsa, b, r, n, RoX(salsa, b, r, n, i - 1))
  }

  ghost function RoMix(salsa: Core, b: seq<Byte>, r: nat, n: nat): (s: seq<Byte>)
    requires r >= 1 && |b| == 128 * r && n >= 1
    ensures |s| == 128 * r
  {
    RoX(salsa, b, r, n, n)
  }

  // ---------- The definitions, written out ----------

  /** X starts as the last chunk; each Y is Salsa of the one before it xor the next chunk. */
  lemma MixedChunk(salsa: Core, b: seq<Byte>, r: nat, i: nat)
    requires r >= 1 && |b| == 128 * r && i < 2 * r
    ensures var last := b[128 * r - 64..];
      Y(salsa, b, r, i) == salsa(Xor(if i == 0 then last else Y(salsa, b, r, i - 1), ChunkAt(b, i)))
  {
    assert ChunkAt(b, 2 * r - 1) == b[128 * r - 64..];
  }

  /** The even Y in order, then the odd ones. */
  lemma BlockMixChunk(salsa: Core, b: seq<Byte>, r: nat, k: nat)
    requires r >= 1 && |b| == 128 * r && k < r
    ensures ChunkAt(BlockMix(salsa, b, r), k) == Y(salsa, b, r, 2 * k)
    ensures ChunkAt(BlockMix(salsa, b, r), r + k) == Y(salsa, b, r, 2 * k + 1)
  {
    PieceAt(Pieces(salsa, b, r), k);
    PieceAt(Pieces(salsa, b, r), r + k);
    assert Source(r, k) == 2 * k && Source(r, r + k) == 2 * k + 1;
  }

  lemma {:induction false} PieceAt(pieces: seq<seq<Byte>>, k: nat)
    requires k < |pieces| && forall p :: p in pieces ==> |p| == 64
    ensures |Join(pieces)| == 64 * |pieces| && Join(pieces)[64 * k..64 * k + 64] == pieces[k]
    decreases |pieces|
  {
    var n := |pieces| - 1;
    JoinLength(pieces, 64);
    AtIsProduct(n + 1, 64);
    JoinLength(pieces[..n], 64);
    AtIsProduct(n, 64);
    assert pieces[n] in pieces && Join(pieces) == Join(pieces[..n]) + pieces[n];
    if k < n {
      PieceAt(pieces[..n], k);
    }
  }

  /** The smallest block: two chunks, written out. */
  lemma BlockMixOfOne(salsa: Core, b: seq<Byte>)
    requires |b| == 128
    ensures var y0 := salsa(Xor(b[64..], b[..64]));
      BlockMix(salsa, b, 1) == y0 + salsa(Xor(y0, b[64..]))
  {
    MixedChunk(salsa, b, 1, 0);
    MixedChunk(salsa, b, 1, 1);
    BlockMixChunk(salsa, b, 1, 0);
    var m := BlockMix(salsa, b, 1);
    assert m == m[..64] + m[64..];
    assert ChunkAt(b, 0) == b[..64] && ChunkAt(b, 1) == b[64..] && ChunkAt(m, 0) == m[..64] && ChunkAt(m, 1) == m[64..];
  }

  /** One round with the table entry `t`. */
  ghost function RoundWith(salsa: Core, r: nat, x: seq<Byte>, t: seq<Byte>): (s: seq<Byte>)
    requires r >= 1 && |x| == |t| == 128 * r
    ensures |s| == 128 * r
  {
    BlockMix(salsa, Xor(x, t), r)
  }

  /** The last 64 bytes as a little-endian number. */
  ghost function Selector(x: seq<Byte>, r: nat): nat
    requires r >= 1 && |x| == 128 * r
  {
    FromLittleEndian(x[128 * r - 64..])
  }

  lemma SelectorIsIntegerify(x: seq<Byte>, r: nat)
    requires r >= 1 && |x| == 128 * r
    ensures Integerify(x, r) == Selector(x, r)
  {
    assert ChunkAt(x, 2 * r - 1) == x[128 * r - 64..];
  }

  /** One round reads the last 64 bytes as a little-endian number, takes the table entry it selects, the
      input mixed that many times, and mixes the exclusive or with it. */
  lemma RoundWrittenOut(salsa: Core, b: seq<Byte>, r: nat, n: nat, x: seq<Byte>)
    requires r >= 1 && |b| == |x| == 128 * r && n >= 1
    ensures Round(salsa, b, r, n, x) == RoundWith(salsa, r, x, V(salsa, b, r, Selector(x, r) % n))
  {
    SelectorIsIntegerify(x, r);
  }

  /** One round with a table of two blocks, written out. */
  ghost function RoundOfTwo(salsa: Core, b: seq<Byte>, r: nat, x: seq<Byte>): (s: seq<Byte>)
    requires r >= 1 && |b| == |x| == 128 * r
    ensures |s| == 128 * r
  {
    RoundWith(salsa, r, x, if Selector(x, r) % 2 == 0 then b else BlockMix(salsa, b, r))
  }

  lemma TableOfTwo(salsa: Core, b: seq<Byte>, r: nat, j: nat)
    requires r >= 1 && |b| == 128 * r && j < 2
    ensures V(salsa, b, r, j) == if j == 0 then b else BlockMix(salsa, b, r)
  {
    if j == 1 { assert V(salsa, b, r, 1) == BlockMix(salsa, V(salsa, b, r, 0), r); }
  }

  lemma RoundIsRoundOfTwo(salsa: Core, b: seq<Byte>, r: nat, x: seq<Byte>)
    requires r >= 1 && |b| == |x| == 128 * r
    ensures Round(salsa, b, r, 2, x) == RoundOfTwo(salsa, b, r, x)
  {
    RoundWrittenOut(salsa, b, r, 2, x);
    TableOfTwo(salsa, b, r, Selector(x, r) % 2);
  }

  /** The smallest cost: the input mixed twice, then two rounds with a table of the input and the input
      mixed once. */
  lemma RoMixOfTwo(salsa: Core, b: seq<Byte>, r: nat)
    requires r >= 1 && |b| == 128 * r
    ensures var mixed := BlockMix(salsa, BlockMix(salsa, b, r), r);
      RoMix(salsa, b, r, 2) == RoundOfTwo(salsa, b, r, RoundOfTwo(salsa, b, r, mixed))
  {
    var x0 := V(salsa, b, r, 2);
    assert x0 == BlockMix(salsa, V(salsa, b, r, 1), r) && V(salsa, b, r, 1) == BlockMix(salsa, V(salsa, b, r, 0), r);
    var x1 := Round(salsa, b, r, 2, x0);
    RoundIsRoundOfTwo(salsa, b, r, x0);
    RoundIsRoundOfTwo(salsa, b, r, x1);
    TwoRounds(salsa, b, r);
  }

  lemma TwoRounds(salsa: Core, b: seq<Byte>, r: nat)
    requires r >= 1 && |b| == 128 * r
    ensures RoMix(salsa, b, r, 2) == Round(salsa, b, r, 2, Round(salsa, b, r, 2, V(salsa, b, r, 2)))
  {
    assert RoX(salsa, b, r, 2, 0) == V(salsa, b, r, 2);
    assert RoX(salsa, b, r, 2, 1) == Round(salsa, b, r, 2, RoX(salsa, b, r, 2, 0));
    assert RoX(salsa, b, r, 2, 2) == Round(salsa, b, r, 2, RoX(salsa, b, r, 2, 1));
  }

  // ---------- BlockMix in place ----------

  /** The first `i` chunks hold Y and the rest is still the input. */
  ghost predicate MixedUpTo(salsa: Core, b: seq<Byte>, r: nat, s: seq<Byte>, i: nat)
    requires r >= 1 && |b| == 128 * r && i <= 2 * r
  {
    && |s| == 128 * r
    && forall k :: 0 <= k < 2 * r ==> ChunkAt(s, k) == if k < i then Y(salsa, b, r, k) else ChunkAt(b, k)
  }

  lemma MixedStep(salsa: Core, b: seq<Byte>, r: nat, s: seq<Byte>, i: nat)
    requires r >= 1 && |b| == 128 * r && i < 2 * r && MixedUpTo(salsa, b, r, s, i)
    ensures MixedUpTo(salsa, b, r, Splice(s, 64 * i, Y(salsa, b, r, i)), i + 1)
  {
    var c := Y(salsa, b, r, i);
    forall k | 0 <= k < 2 * r
      ensures ChunkAt(Splice(s, 64 * i, c), k) == if k < i + 1 then Y(salsa, b, r, k) else ChunkAt(b, k)
    {
      SpliceChunk(s, i, c, k);
    }
  }

  /** The even chunks before `i` have moved to the front half and the odd ones to the back half. */
  ghost predicate ShuffledUpTo(mixed: seq<Byte>, r: nat, s: seq<Byte>, i: nat)
    requires |mixed| == 128 * r && i <= r
  {
    && |s| == 128 * r
    && forall k :: 0 <= k < 2 * r && (k < i || r <= k < r + i) ==> ChunkAt(s, k) == ChunkAt(mixed, Source(r, k))
  }

  lemma ShuffledStep(mixed: seq<Byte>, r: nat, s: seq<Byte>, i: nat)
    requires |mixed| == 128 * r && i < r && ShuffledUpTo(mixed, r, s, i)
    ensures ShuffledUpTo(mixed, r,
      Splice(Splice(s, 64 * i, ChunkAt(mixed, 2 * i)), 64 * (r + i), ChunkAt(mixed, 2 * i + 1)), i + 1)
  {
    var s1 := Splice(s, 64 * i, ChunkAt(mixed, 2 * i));
    var s2 := Splice(s1, 64 * (r + i), ChunkAt(mixed, 2 * i + 1));
    forall k | 0 <= k < 2 * r && (k < i + 1 || r <= k < r + i + 1)
      ensures ChunkAt(s2, k) == ChunkAt(mixed, Source(r, k))
    {
      SpliceChunk(s, i, ChunkAt(mixed, 2 * i), k);
      SpliceChunk(s1, r + i, ChunkAt(mixed, 2 * i + 1), k);
    }
  }

  lemma ShuffledIsBlockMix(salsa: Core, b: seq<Byte>, r: nat, mixed: seq<Byte>, s: seq<Byte>)
    requires r >= 1 && |b| == 128 * r && MixedUpTo(salsa, b, r, mixed, 2 * r) && ShuffledUpTo(mixed, r, s, r)
    ensures s == BlockMix(salsa, b, r)
  {
    var pieces := Pieces(salsa, b, r);
    AtIsProduct(2 * r, 64);
    forall k | 0 <= k < 2 * r ensures SlotIs(s, 64, k, pieces[k]) {
      AtIsProduct(k, 64);
      assert ChunkAt(mixed, Source(r, k)) == Y(salsa, b, r, Source(r, k));
    }
    JoinSlots(pieces, 64, s);
  }

  /** A copy of the last chunk, to start with. */
  method LastChunk(r: nat, a: array<Byte>) returns (x: array<Byte>)
    requires r >= 1 && a.Length == 128 * r
    ensures fresh(x) && x[..] == ChunkAt(a[..], 2 * r - 1)
  {
    x := new Byte[64];
    CopyInto(x, 0, a[(2 * r - 1) * 64..2 * r * 64]);
  }

  /** One pass of the mixing loop. */
  method MixChunk(salsa: Core, ghost b: seq<Byte>, r: nat, a: array<Byte>, x: array<Byte>, i: nat)
    requires r >= 1 && |b| == 128 * r && i < 2 * r && a != x
    requires MixedUpTo(salsa, b, r, a[..], i) && x[..] == MixX(salsa, b, r, i)
    modifies a, x
    ensures MixedUpTo(salsa, b, r, a[..], i + 1) && x[..] == MixX(salsa, b, r, i + 1)
  {
    var chunk := a[64 * i..64 * i + 64];
    assert chunk == ChunkAt(a[..], i);
    XorInto(x, chunk);
    CopyInto(x, 0, salsa(x[..]));
    ghost var before := a[..];
    MixedStep(salsa, b, r, before, i);
    assert x[..] == Y(salsa, b, r, i);
    CopyInto(a, 64 * i, x[..]);
    assert a[..] == Splice(before, 64 * i, Y(salsa, b, r, i));
  }

  method MixChunks(salsa: Core, r: nat, a: array<Byte>)
    requires r >= 1 && a.Length == 128 * r
    modifies a
    ensures MixedUpTo(salsa, old(a[..]), r, a[..], 2 * r)
  {
    ghost var b := a[..];
    var x := LastChunk(r, a);
    for i := 0 to 2 * r
      invariant MixedUpTo(salsa, b, r, a[..], i)
      invariant x[..] == MixX(salsa, b, r, i)
    {
      MixChunk(salsa, b, r, a, x, i);
    }
  }

  method Shuffle(r: nat, a: array<Byte>)
    requires r >= 1 && a.Length == 128 * r
    modifies a
    ensures ShuffledUpTo(old(a[..]), r, a[..], r)
  {
    ghost var mixed := a[..];
    var rearranged := new Byte[a.Length](_ => 0);
    for i := 0 to r
      invariant a[..] == mixed
      invariant ShuffledUpTo(mixed, r, rearranged[..], i)
    {
      ShuffledStep(mixed, r, rearranged[..], i);
      assert a[i * 128..i * 128 + 64] == ChunkAt(mixed, 2 * i);
      CopyInto(rearranged, 64 * i, a[i * 128..i * 128 + 64]);
      assert a[i * 128 + 64..(i + 1) * 128] == ChunkAt(mixed, 2 * i + 1);
      CopyInto(rearranged, 64 * (r + i), a[i * 128 + 64..(i + 1) * 128]);
    }
    CopyInto(a, 0, rearranged[..]);
    assert a[..] == rearranged[..];
  }

  method BlockMixInPlace(salsa: Core, r: nat, a: array<Byte>)
    requires r >= 1 && a.Length == 128 * r
    modifies a
    ensures a[..] == BlockMix(salsa, old(a[..]), r)
  {
    ghost var b := a[..];
    MixChunks(salsa, r, a);
    ghost var mixed := a[..];
    Shuffle(r, a);
    ShuffledIsBlockMix(salsa, b, r, mixed, a[..]);
  }

  // ---------- ROMix in place ----------

  ghost predicate HoldsV(salsa: Core, b: seq<Byte>, r: nat, table: seq<Byte>, k: nat)
    requires r >= 1 && |b| == 128 * r
  {
    SlotIs(table, 128 * r, k, V(salsa, b, r, k))
  }

  /** The first `i` slots of the table hold V[0], ..., V[i - 1]. */
  ghost predicate Filled(salsa: Core, b: seq<Byte>, r: nat, n: nat, table: seq<Byte>, i: nat)
    requires r >= 1 && |b| == 128 * r
  {
    && Slotted(table, 128 * r, n) && i <= n
    && forall k :: 0 <= k < i ==> HoldsV(salsa, b, r, table, k)
  }

  lemma FillStep(salsa: Core, b: seq<Byte>, r: nat, n: nat, table: seq<Byte>, i: nat)
    requires r >= 1 && |b| == 128 * r && i < n && Filled(salsa, b, r, n, table, i)
    ensures At(i, 128 * r) + 128 * r <= |table|
    ensures Filled(salsa, b, r, n, Splice(table, At(i, 128 * r), V(salsa, b, r, i)), i + 1)
  {
    var size := 128 * r;
    SlotInRange(table, size, n, i);
    forall k | 0 <= k < i + 1
      ensures HoldsV(salsa, b, r, Splice(table, At(i, size), V(salsa, b, r, i)), k)
    {
      assert k < i ==> HoldsV(salsa, b, r, table, k);
      SlotInRange(table, size, n, k);
      SpliceSlot(table, size, i, V(salsa, b, r, i), k);
    }
  }

  /** The index the code computes, from 8 bytes and a mask, is Integerify(X) mod N. */
  lemma IndexIsIntegerify(x: seq<Byte>, r: nat, k: nat)
    requires r >= 1 && |x| == 128 * r && k <= 64
    ensures BitAnd(FromLittleEndian(x[128 * r - 64..128 * r - 56]), Pow2(k) - 1) == Integerify(x, r) % Pow2(k)
  {
    var last := ChunkAt(x, 2 * r - 1);
    assert last[..8] == x[128 * r - 64..128 * r - 56];
    LowBitsOfEightBytes(last, k);
  }

  method FillTable(salsa: Core, r: nat, a: array<Byte>, n: nat) returns (table: array<Byte>)
    requires r >= 1 && a.Length == 128 * r
    modifies a
    ensures fresh(table) && a[..] == V(salsa, old(a[..]), r, n)
    ensures Filled(salsa, old(a[..]), r, n, table[..], n)
  {
    ghost var b := a[..];
    var size := 128 * r;
    table := new Byte[At(n, size)](_ => 0);
    for i := 0 to n
      invariant fresh(table) && a[..] == V(salsa, b, r, i)
      invariant Filled(salsa, b, r, n, table[..], i)
    {
      FillStep(salsa, b, r, n, table[..], i);
      var offset: nat := At(i, size);
      CopyInto(table, offset, a[..]);
      BlockMixInPlace(salsa, r, a);
    }
  }

  /** The last eight bytes of the buffer's last chunk, masked. */
  method TableIndex(r: nat, a: array<Byte>, n: nat, ghost k: nat) returns (index: nat)
    requires r >= 1 && a.Length == 128 * r && n == Pow2(k) && k <= 64
    ensures index == Integerify(a[..], r) % n
  {
    var size := 128 * r;
    assert a[size - 64..size - 56] == a[..][size - 64..size - 56];
    index := BitAnd(FromLittleEndian(a[size - 64..size - 56]), n - 1);
    IndexIsIntegerify(a[..], r, k);
  }

  /** The block of the table that the buffer selects. */
  method Lookup(salsa: Core, ghost b: seq<Byte>, r: nat, a: array<Byte>, n: nat, ghost k: nat, table: array<Byte>)
    returns (block: seq<Byte>)
    requires r >= 1 && |b| == a.Length == 128 * r && n == Pow2(k) && k <= 64
    requires Filled(salsa, b, r, n, table[..], n)
    ensures block == V(salsa, b, r, Integerify(a[..], r) % n)
  {
    var index := TableIndex(r, a, n, k);
    assert index < n && HoldsV(salsa, b, r, table[..], index);
    return Slot(table[..], 128 * r, index);
  }

  method RoStep(salsa: Core, ghost b: seq<Byte>, r: nat, a: array<Byte>, n: nat, ghost k: nat, table: array<Byte>)
    requires r >= 1 && |b| == a.Length == 128 * r && n == Pow2(k) && k <= 64 && a != table
    requires Filled(salsa, b, r, n, table[..], n)
    modifies a
    ensures a[..] == Round(salsa, b, r, n, old(a[..]))
  {
    var block := Lookup(salsa, b, r, a, n, k, table);
    XorInto(a, block);
    BlockMixInPlace(salsa, r, a);
  }

  method RoLoop(salsa: Core, ghost b: seq<Byte>, r: nat, a: array<Byte>, n: nat, ghost k: nat, table: array<Byte>)
    requires r >= 1 && |b| == a.Length == 128 * r && n == Pow2(k) && k <= 64 && a != table
    requires Filled(salsa, b, r, n, table[..], n) && a[..] == V(salsa, b, r, n)
    modifies a
    ensures a[..] == RoMix(salsa, b, r, n)
  {
    for i := 0 to n
      invariant Filled(salsa, b, r, n, table[..], n)
      invariant a[..] == RoX(salsa, b, r, n, i)
    {
      RoStep(salsa, b, r, a, n, k, table);
    }
  }

  method RoMixInPlace(salsa: Core, r: nat, a: array<Byte>, n: nat, ghost k: nat)
    requires r >= 1 && a.Length == 128 * r && n == Pow2(k) && k <= 64
    modifies a
    ensures a[..] == RoMix(salsa, old(a[..]), r, n)
  {
    ghost var b := a[..];
    var table := FillTable(salsa, r, a, n);
    RoLoop(salsa, b, r, a, n, k, table);
  }

  // ---------- scrypt ----------

  predicate IsPowerOfTwo(n: nat) {
    n == 1 || (n > 1 && n % 2 == 0 && IsPowerOfTwo(n / 2))
  }

  lemma {:induction false} Exponent(n: nat) returns (k: nat)
    requires IsPowerOfTwo(n)
    ensures n == Pow2(k)
    decreases n
  {
    if n == 1 {
      k := 0;
    } else {
      k := Exponent(n / 2);
      k := k + 1;
    }
  }

  /** The first `i` of the `p` slots of the expensive block, each put through scryptROMix
      (section 6, step 2). */
  ghost function MixFirst(salsa: Core, b: seq<Byte>, r: nat, n: nat, p: nat, i: nat): (pieces: seq<seq<Byte>>)
    requires r >= 1 && Slotted(b, 128 * r, p) && n >= 1 && i <= p
    ensures |pieces| == i && forall x :: x in pieces ==> |x| == 128 * r
    decreases i
  {
    if i == 0 then []
    else
      SlotInRange(b, 128 * r, p, i - 1);
      MixFirst(salsa, b, r, n, p, i - 1) + [RoMix(salsa, Slot(b, 128 * r, i - 1), r, n)]
  }

  predicate GoodCost(n: nat) {
    n > 1 && IsPowerOfTwo(n)
  }

  /** The bound on the parallelization, for `q` in place of four times the block size. */
  predicate GoodParallelization(p: nat, q: nat)
    requires q >= 1
  {
    0 < p <= U32_MAX / q
  }

  predicate GoodLength(length: nat) {
    0 < length <= U32_MAX * 32
  }

  /** The parameters scrypt is defined for. */
  predicate GoodParameters(n: nat, p: nat, r: nat, length: nat) {
    GoodCost(n) && r >= 1 && GoodParallelization(p, 4 * r) && GoodLength(length)
  }

  /** The parameters scrypt is defined for, in numbers: a cost that is a power of two above one, and the bounds
      on the parallelization and the length. */
  lemma GoodParametersExactly(n: nat, p: nat, r: nat, length: nat)
    ensures GoodParameters(n, p, r, length) <==>
      && n > 1 && IsPow2(n) && r >= 1
      && 0 < p <= 0xFFFF_FFFF / (4 * r) && 0 < length <= 0xFFFF_FFFF * 32
  {
    if IsPowerOfTwo(n) {
      var k := Exponent(n);
      assert n == Pow2(k);
    }
    if k: nat :| n == Pow2(k) {
      PowerIsPower(k);
    }
  }

  ghost predicate IsPow2(n: nat) {
    exists k: nat :: n == Pow2(k)
  }

  /** Every result fits its slot and every place in the order is a thread's. */
  ghost predicate Writable(s: seq<Byte>, size: nat, results: seq<seq<Byte>>, order: seq<nat>) {
    && Slotted(s, size, |results|)
    && (forall x :: x in results ==> |x| == size)
    && (forall j :: 0 <= j < |order| ==> order[j] < |results|)
  }

  /** The results written back to their slots in the given order. */
  ghost function WriteBack(s: seq<Byte>, size: nat, results: seq<seq<Byte>>, order: seq<nat>): (r: seq<Byte>)
    requires Writable(s, size, results, order)
    ensures |r| == |s|
    decreases |order|
  {
    if order == [] then s
    else
      var m := |order| - 1;
      var t := order[m];
      assert results[t] in results;
      SlotInRange(s, size, |results|, t);
      Splice(WriteBack(s, size, results, order[..m]), At(t, size), results[t])
  }

  lemma {:induction false} WrittenSlot(s: seq<Byte>, size: nat, results: seq<seq<Byte>>, order: seq<nat>, k: nat)
    requires Writable(s, size, results, order)
    requires k in order
    ensures SlotIs(WriteBack(s, size, results, order), size, k, results[k])
    decreases |order|
  {
    var m := |order| - 1;
    var t := order[m];
    var before := WriteBack(s, size, results, order[..m]);
    assert order == order[..m] + [t];
    assert results[t] in results;
    SlotInRange(before, size, |results|, t);
    SlotInRange(before, size, |results|, k);
    SpliceSlot(before, size, t, results[t], k);
    if k != t {
      WrittenSlot(s, size, results, order[..m], k);
    }
  }

  /** Whatever the order in which all threads' results are written back, the buffer is their
      concatenation in thread order. */
  lemma AnyCompletionOrder(s: seq<Byte>, size: nat, results: seq<seq<Byte>>, order: seq<nat>)
    requires Writable(s, size, results, order)
    requires forall k :: 0 <= k < |results| ==> k in order
    ensures WriteBack(s, size, results, order) == Join(results)
  {
    var w := WriteBack(s, size, results, order);
    forall k | 0 <= k < |results| ensures SlotIs(w, size, k, results[k]) {
      WrittenSlot(s, size, results, order, k);
    }
    JoinSlots(results, size, w);
  }

  method MixThread(salsa: Core, chunk: seq<Byte>, r: nat, n: nat, ghost k: nat) returns (result: seq<Byte>)
    requires r >= 1 && |chunk| == 128 * r && n == Pow2(k) && k <= 64
    ensures result == RoMix(salsa, chunk, r, n)
  {
    var own := new Byte[|chunk|](i requires 0 <= i < |chunk| => chunk[i]);
    assert own[..] == chunk;
    RoMixInPlace(salsa, r, own, n, k);
    return own[..];
  }

  method RunThreads(salsa: Core, key: seq<Byte>, r: nat, n: nat, ghost k: nat, p: nat) returns (results: seq<seq<Byte>>)
    requires r >= 1 && Slotted(key, 128 * r, p) && n == Pow2(k) && k <= 64
    ensures results == MixFirst(salsa, key, r, n, p, p)
  {
    results := [];
    for t := 0 to p
      invariant results == MixFirst(salsa, key, r, n, p, t)
    {
      SlotInRange(key, 128 * r, p, t);
      var result := MixThread(salsa, Slot(key, 128 * r, t), r, n, k);
      results := results + [result];
    }
  }

  method JoinThreads(key: array<Byte>, size: nat, results: seq<seq<Byte>>)
    requires Writable(key[..], size, results, [])
    modifies key
    ensures key[..] == Join(results)
  {
    ghost var b := key[..];
    ghost var order: seq<nat> := [];
    for t := 0 to |results|
      invariant |order| == t && forall j :: 0 <= j < t ==> order[j] == j
      invariant Writable(b, size, results, order) && key[..] == WriteBack(b, size, results, order)
    {
      SlotInRange(b, size, |results|, t);
      assert results[t] in results;
      CopyInto(key, At(t, size), results[t]);
      assert (order + [t])[..|order|] == order;
      order := order + [t];
    }
    forall k | 0 <= k < |results| ensures k in order {
      assert order[k] == k;
    }
    AnyCompletionOrder(b, size, results, order);
  }

  method MixThreads(salsa: Core, key: array<Byte>, r: nat, n: nat, ghost k: nat, p: nat)
    requires r >= 1 && Slotted(key[..], 128 * r, p) && n == Pow2(k) && k <= 64
    modifies key
    ensures key[..] == Join(MixFirst(salsa, old(key[..]), r, n, p, p))
  {
    var results := RunThreads(salsa, key[..], r, n, k, p);
    JoinThreads(key, 128 * r, results);
  }

  /** The parameter check keeps the first PBKDF2 call within its limit and every product small. */
  lemma FirstCallFits(p: nat, r: nat)
    requires r >= 1 && GoodParallelization(p, 4 * r)
    ensures 0 < At(p, 128 * r) <= U32_MAX * 32
    ensures 4 * r <= U32_MAX
  {
    QuotientBound(p, 4 * r, U32_MAX);
    AtIsProduct(p, 128 * r);
    MulAssociates(p, 4 * r, 32);
    assert (4 * r) * 32 == 128 * r;
  }

  lemma QuotientBound(p: nat, q: nat, limit: nat)
    requires q >= 1 && 0 < p <= limit / q
    ensures q <= p * q <= limit
  {
    var d := limit / q;
    assert d * q <= limit;
    assert d * q == p * q + (d - p) * q;
    assert p * q == q + (p - 1) * q;
  }

  lemma SixtyFourBits()
    ensures Pow2(64) == 0x1_0000_0000_0000_0000
  {
    assert Pow2(8) == 256;
    Pow2Sum(8, 8);
    assert Pow2(16) == 0x1_0000;
    Pow2Sum(16, 16);
    assert Pow2(32) == 0x1_0000_0000;
    Pow2Sum(32, 32);
  }

  lemma ExponentBelow64(n: nat, k: nat)
    requires n == Pow2(k) && n <= U64_MAX
    ensures k < 64
  {
    if k >= 64 {
      Pow2Monotone(64, k);
      SixtyFourBits();
    }
  }

  // ---------- The parameter check ----------

  const COST_ERROR := "cost_parameter must be larger than 1 and a power of 2."
  const PARALLELIZATION_ERROR :=
    "parallelization_parameter must be a positive integer less than or equal to (2^32-1) / (4 * block_size)."
  const LENGTH_ERROR := "dkLen must be a positive integer less than or equal to (2^32 - 1) * 32."

  datatype Check = Accepted | Rejected(message: string) | Panics

  /** A product on 64 bits. A build with overflow checks panics on overflow, one without wraps. */
  function Product(a: nat, b: nat, overflowChecks: bool): Option<nat> {
    if a * b <= U64_MAX then Some(a * b) else if overflowChecks then None else Some(a * b % (U64_MAX + 1))
  }

  /** The three checks in the source's order. A parallelization of zero is rejected before the division. */
  function CheckParameters(n: nat, p: nat, r: nat, length: nat, overflowChecks: bool): Check {
    if !GoodCost(n) then Rejected(COST_ERROR)
    else if p == 0 then Rejected(PARALLELIZATION_ERROR)
    else
      var q := Product(4, r, overflowChecks);
      if q.None? || q.value == 0 then Panics
      else if !GoodParallelization(p, q.value) then Rejected(PARALLELIZATION_ERROR)
      else if !GoodLength(length) then Rejected(LENGTH_ERROR)
      else Accepted
  }

  predicate BadBlockSize(r: nat, overflowChecks: bool) {
    r == 0 || (4 * r > U64_MAX && (overflowChecks || r % 0x4000_0000_0000_0000 == 0))
  }

  /** The check does not rule out every failure: it panics itself exactly if the cost and the
      parallelization get past it and the block size is zero, or too large in a build with overflow
      checks, or a multiple of 2^62 in one without. */
  lemma PanicsExactly(n: nat, p: nat, r: nat, length: nat, overflowChecks: bool)
    ensures CheckParameters(n, p, r, length, overflowChecks).Panics? <==>
      GoodCost(n) && p > 0 && BadBlockSize(r, overflowChecks)
  {
    assert 4 * r % (U64_MAX + 1) == 4 * (r % 0x4000_0000_0000_0000);
  }

  /** It accepts exactly the parameters scrypt is defined for and, in a build that wraps, block sizes
      of 2^62 or more that look small once multiplied by four. */
  lemma AcceptsExactly(n: nat, p: nat, r: nat, length: nat, overflowChecks: bool)
    ensures CheckParameters(n, p, r, length, overflowChecks).Accepted? <==>
      || GoodParameters(n, p, r, length)
      || (!overflowChecks && LooksSmall(n, p, r, length))
  {
    if 4 * r > U64_MAX && r >= 1 {
      TooLargeIsNotGood(p, r);
    }
  }

  ghost predicate LooksSmall(n: nat, p: nat, r: nat, length: nat) {
    var q := 4 * r % (U64_MAX + 1);
    GoodCost(n) && 4 * r > U64_MAX && q > 0 && GoodParallelization(p, q) && GoodLength(length)
  }

  lemma TooLargeIsNotGood(p: nat, r: nat)
    requires 4 * r > U64_MAX
    ensures !GoodParallelization(p, 4 * r)
  {
    if GoodParallelization(p, 4 * r) {
      FirstCallFits(p, r);
    }
  }

  /** The input itself: with a block size of zero the check divides by zero, in every build. */
  lemma ZeroBlockSizePanics(n: nat, p: nat, length: nat, overflowChecks: bool)
    requires GoodCost(n) && p > 0
    ensures CheckParameters(n, p, 0, length, overflowChecks) == Panics
    ensures CheckParameters(n, 0, 0, length, overflowChecks).Rejected?
  {
  }

  /** The 64 bytes at `offset`, a word that did not wrap, are not all within the chunk. */
  ghost predicate PastTheEnd(chunk: nat, offset: nat) {
    offset <= U64_MAX && chunk < offset + 64
  }

  /** A block size that looks small gives every thread a chunk of at most 2^37 bytes. Below 2^63 the mixing
      loop, which goes through `2 * r` times 64 bytes, runs past its end; from there on `2 * r` wraps, and
      the rearranging loop does at the latest, which goes through `r` pairs. The thread panics. */
  lemma LooksSmallRunsPastTheEnd(n: nat, p: nat, r: nat, length: nat)
    requires LooksSmall(n, p, r, length) && r <= U64_MAX
    ensures var chunk := 128 * r % (U64_MAX + 1);
      && chunk <= 0x20_0000_0000
      && (2 * r <= U64_MAX ==> exists k: nat :: k < 2 * r && PastTheEnd(chunk, 64 * k))
      && exists k: nat :: k < r && PastTheEnd(chunk, 128 * k)
  {
    var q, chunk := 4 * r % (U64_MAX + 1), 128 * r % (U64_MAX + 1);
    QuotientBound(p, q, U32_MAX);
    assert 32 * q <= U64_MAX;
    WrappedMultiple(r, q);
    assert chunk == 32 * q;
    var k := chunk / 128 + 1;
    assert k < r && PastTheEnd(chunk, 128 * k);
    var j := 2 * k;
    assert j < 2 * r && PastTheEnd(chunk, 64 * j);
  }

  /** If the small product does not wrap again, 32 times it is the large product wrapped. */
  lemma WrappedMultiple(r: nat, q: nat)
    requires q == 4 * r % (U64_MAX + 1) && 32 * q <= U64_MAX
    ensures 128 * r % (U64_MAX + 1) == 32 * q
  {
    var m := U64_MAX + 1;
    var d := 4 * r / m;
    assert 4 * r == d * m + q;
    DivModUnique(128 * r, m, 32 * d, 32 * q);
  }

  // ---------- The table ----------

  const ISIZE_MAX: nat := 0x7FFF_FFFF_FFFF_FFFF

  /** A thread's table of `n` blocks is within what one allocation may have. */
  predicate TableFits(n: nat, r: nat) {
    n * (128 * r) <= ISIZE_MAX
  }

  ghost predicate SlotWithin(length: nat, i: nat, size: nat) {
    i * size + size <= length
  }

  /** A thread allocates its table, of the length it computes, and has room for every block. */
  ghost predicate TableFills(n: nat, size: nat, overflowChecks: bool) {
    var length := Product(n, size, overflowChecks);
    length.Some? && length.value <= ISIZE_MAX && forall i: nat :: i < n ==> SlotWithin(length.value, i, size)
  }

  /** A table whose length wrapped runs out: one block begins within it and ends beyond. */
  lemma WrappedTableRunsOut(n: nat, size: nat, m: nat) returns (i: nat)
    requires size >= 1 && m >= 1 && n * size >= m
    ensures i < n && i * size <= n * size % m && !SlotWithin(n * size % m, i, size)
  {
    var length := n * size % m;
    i := length / size;
    assert i * size <= length < i * size + size;
    assert i < n;
  }

  lemma SlotsFit(n: nat, size: nat, i: nat)
    requires i < n
    ensures SlotWithin(n * size, i, size)
  {
    assert n * size == (i * size + size) + (n - i - 1) * size;
  }

  /** In either build the table holds all blocks if and only if its size fits one allocation. */
  lemma TableFillsExactly(n: nat, r: nat, overflowChecks: bool)
    requires r >= 1
    ensures TableFills(n, 128 * r, overflowChecks) <==> TableFits(n, r)
  {
    var size := 128 * r;
    if TableFits(n, r) {
      forall i: nat | i < n ensures SlotWithin(n * size, i, size) { SlotsFit(n, size, i); }
    } else if n * size > U64_MAX {
      var i := WrappedTableRunsOut(n, size, U64_MAX + 1);
    }
  }

  lemma {:induction false} PowerIsPower(k: nat)
    ensures IsPowerOfTwo(Pow2(k))
    decreases k
  {
    if k > 0 {
      PowerIsPower(k - 1);
    }
  }

  /** The inputs: every cost of 2^56 or more gets past the check and gives a table that does not fit. */
  lemma HugeCostPassesCheck(k: nat, p: nat, r: nat, length: nat, overflowChecks: bool)
    requires k >= 56 && r >= 1 && GoodParallelization(p, 4 * r) && GoodLength(length)
    ensures CheckParameters(Pow2(k), p, r, length, overflowChecks).Accepted? && !TableFits(Pow2(k), r)
  {
    var n := Pow2(k);
    assert GoodCost(n) by {
      PowerIsPower(k);
      assert Pow2(1) == 2;
      Pow2Monotone(1, k);
    }
    AcceptsExactly(n, p, r, length, overflowChecks);
    assert 128 * n > ISIZE_MAX by {
      Pow2Monotone(56, k);
      TableOf56();
    }
    LargerTable(n, r);
  }

  lemma LargerTable(n: nat, r: nat)
    requires r >= 1 && 128 * n > ISIZE_MAX
    ensures !TableFits(n, r)
  {
    assert n * (128 * r) == 128 * n + n * (128 * (r - 1));
  }

  lemma TableOf56()
    ensures 128 * Pow2(56) == ISIZE_MAX + 1
  {
    SixtyFourBits();
    assert Pow2(8) == 256;
    Pow2Sum(8, 56);
  }

  /** One of them: a cost of 2^57 with every other parameter at its least and a key of 32 bytes. */
  lemma CostOf57PassesCheck(overflowChecks: bool)
    ensures CheckParameters(0x200_0000_0000_0000, 1, 1, 32, overflowChecks).Accepted?
    ensures !TableFits(0x200_0000_0000_0000, 1)
  {
    TableOf56();
    assert Pow2(57) == 2 * Pow2(56);
    HugeCostPassesCheck(57, 1, 1, 32, overflowChecks);
  }

  // ---------- The call ----------

  datatype Outcome = Key(bytes: seq<Byte>) | Failed(message: string) | Panicked

  const JOIN_ERROR := "Failed to join thread while doin scrypt_romix"

  /** On all 64-bit parameters and both kinds of build. A thread that panics, because of its chunk or of its
      table, is an error of the call; a panic of the check is not caught. */
  method DeriveScrypt(prf: Prf, salsa: Core, password: seq<Byte>, salt: seq<Byte>,
                      n: nat, p: nat, r: nat, length: nat, overflowChecks: bool)
    returns (res: Outcome)
    requires n <= U64_MAX && p <= U64_MAX && r <= U64_MAX && length <= U64_MAX
    ensures res.Key? <==> GoodParameters(n, p, r, length) && TableFits(n, r)
    ensures res.Panicked? <==> GoodCost(n) && p > 0 && BadBlockSize(r, overflowChecks)
    ensures res.Key? ==> res.bytes == ScryptKey(prf, salsa, password, salt, n, p, r, length)
  {
    PanicsExactly(n, p, r, length, overflowChecks);
    AcceptsExactly(n, p, r, length, overflowChecks);
    match CheckParameters(n, p, r, length, overflowChecks) {
      case Panics => return Panicked;
      case Rejected(message) => return Failed(message);
      case Accepted =>
    }
    if 4 * r > U64_MAX {
      TooLargeIsNotGood(p, r);
      LooksSmallRunsPastTheEnd(n, p, r, length);
      return Failed(JOIN_ERROR);
    }
    if !TableFits(n, r) {
      TableFillsExactly(n, r, overflowChecks);
      return Failed(JOIN_ERROR);
    }
    var bytes := DeriveChecked(prf, salsa, password, salt, n, p, r, length);
    return Key(bytes);
  }

  /** scrypt of section 6 of RFC 7914. */
  ghost function ScryptKey(prf: Prf, salsa: Core, password: seq<Byte>, salt: seq<Byte>,
                           n: nat, p: nat, r: nat, length: nat): seq<Byte>
    requires GoodParameters(n, p, r, length)
  {
    FirstCallFits(p, r);
    var b := DerivedKey(prf, password, salt, 1, At(p, 128 * r));
    DerivedKey(prf, password, Join(MixFirst(salsa, b, r, n, p, p)), 1, length)
  }

  /** Each further slot of the mixed block is scryptROMix of the same slot of the unmixed one. */
  lemma NextSlotMixed(salsa: Core, b: seq<Byte>, r: nat, n: nat, p: nat, i: nat)
    requires r >= 1 && Slotted(b, 128 * r, p) && n >= 1 && i < p
    ensures At(i, 128 * r) + 128 * r <= |b|
    ensures MixFirst(salsa, b, r, n, p, i + 1) ==
            MixFirst(salsa, b, r, n, p, i) + [RoMix(salsa, Slot(b, 128 * r, i), r, n)]
  {
    SlotInRange(b, 128 * r, p, i);
  }

  lemma OnlySlot(b: seq<Byte>, size: nat)
    requires |b| == size
    ensures Slotted(b, size, 1) && At(0, size) == 0 && At(0, size) + size <= |b| && Slot(b, size, 0) == b
  {
    assert b[..size] == b;
  }

  lemma JoinOfOne(pieces: seq<seq<Byte>>)
    requires |pieces| == 1
    ensures Join(pieces) == pieces[0]
  {
    assert pieces[..0] == [];
    assert Join(pieces[..0]) == [];
  }

  /** With one thread the key is PBKDF2 of scryptROMix of PBKDF2. */
  lemma ScryptOfOneThread(prf: Prf, salsa: Core, password: seq<Byte>, salt: seq<Byte>, n: nat, r: nat, length: nat)
    requires GoodParameters(n, 1, r, length)
    ensures var b := DerivedKey(prf, password, salt, 1, 128 * r);
      ScryptKey(prf, salsa, password, salt, n, 1, r, length) ==
      DerivedKey(prf, password, RoMix(salsa, b, r, n), 1, length)
  {
    AtIsProduct(1, 128 * r);
    var b := DerivedKey(prf, password, salt, 1, 128 * r);
    OnlySlot(b, 128 * r);
    NextSlotMixed(salsa, b, r, n, 1, 0);
    JoinOfOne(MixFirst(salsa, b, r, n, 1, 1));
  }

  method DeriveChecked(prf: Prf, salsa: Core, password: seq<Byte>, salt: seq<Byte>,
                       n: nat, p: nat, r: nat, length: nat)
    returns (bytes: seq<Byte>)
    requires n <= U64_MAX && GoodParameters(n, p, r, length)
    ensures bytes == ScryptKey(prf, salsa, password, salt, n, p, r, length)
  {
    ghost var k := Exponent(n);
    ExponentBelow64(n, k);
    FirstCallFits(p, r);
    var initial := DeriveKey(prf, password, salt, 1, At(p, 128 * r));
    var key := new Byte[|initial.value|](i requires 0 <= i < |initial.value| => initial.value[i]);
    assert key[..] == initial.value;
    MixThreads(salsa, key, r, n, k, p);
    var derived := DeriveKey(prf, password, key[..], 1, length);
    return derived.value;
  }
}
