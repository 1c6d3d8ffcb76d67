/**
 PBKDF2 (crates/crypto/keystore/src/pbkdf2.rs) against section 5.2 of RFC 2898. The keyed hash is a
 parameter.
 */
module Pbkdf2 {
  import opened Wrappers
  import opened Bits
  import opened Bytes

  const U32_MAX: nat := 0xFFFF_FFFF

  type Mac = s: seq<Byte> | |s| == 32 witness seq(32, _ => 0)

  type Prf = (seq<Byte>, seq<Byte>) -> Mac

  function ToU32(i: nat): nat {
    i % 0x1_0000_0000
  }

  function BigEndian32(i: nat): seq<Byte> {
    [i / 0x100_0000 % 256, i / 0x1_0000 % 256, i / 0x100 % 256, i % 256]
  }

  ghost function FromBigEndian(s: seq<Byte>): nat {
    if s == [] then 0 else 256 * FromBigEndian(s[..|s| - 1]) + s[|s| - 1]
  }

  /** INT(i): the four bytes denote the block index, most significant first. */
  lemma BigEndianDenotes(i: nat)
    requires i <= U32_MAX
    ensures |BigEndian32(i)| == 4 && FromBigEndian(BigEndian32(i)) == i
  {
    var b := BigEndian32(i);
    assert b[..3][..2] == b[..2] && b[..2][..1] == b[..1] && b[..1][..0] == [];
    assert i / 0x1_0000 == i / 0x100 / 256;
    assert i / 0x100_0000 == i / 0x1_0000 / 256;
    assert FromBigEndian(b[..1]) == i / 0x100_0000;
    assert FromBigEndian(b[..2]) == i / 0x1_0000;
    assert FromBigEndian(b[..3]) == i / 0x100;
  }

  // ---------- RFC 2898 ----------

  /** U_j of block `i`, for `j >= 1`. */
  ghost function U(prf: Prf, password: seq<Byte>, salt: seq<Byte>, i: nat, j: nat): Mac
    requires j >= 1
    decreases j
  {
    if j == 1 then prf(password, salt + BigEndian32(i)) else prf(password, U(prf, password, salt, i, j - 1))
  }

  /** T_i = U_1 xor U_2 xor ... xor U_c. */
  ghost function T(prf: Prf, password: seq<Byte>, salt: seq<Byte>, i: nat, c: nat): Mac
    requires c >= 1
    decreases c
  {
    if c == 1 then U(prf, password, salt, i, 1)
    else Xor(T(prf, password, salt, i, c - 1), U(prf, password, salt, i, c))
  }

  lemma OneAndTwo(prf: Prf, password: seq<Byte>, salt: seq<Byte>, i: nat)
    ensures var first := prf(password, salt + BigEndian32(i));
      T(prf, password, salt, i, 1) == first && T(prf, password, salt, i, 2) == Xor(first, prf(password, first))
  {
    assert U(prf, password, salt, i, 2) == prf(password, U(prf, password, salt, i, 1));
  }

  /** In how many of U_1, ..., U_c bit `k` of byte `x` is set. */
  ghost function Ones(prf: Prf, password: seq<Byte>, salt: seq<Byte>, i: nat, c: nat, x: nat, k: nat): nat
    requires x < 32
  {
    if c == 0 then 0
    else Ones(prf, password, salt, i, c - 1, x, k) + if Bit(U(prf, password, salt, i, c)[x], k) then 1 else 0
  }

  /** Each bit of T_i is the parity of that bit over U_1, ..., U_c: every iteration counts once. */
  lemma {:induction false} BlockIsParity(prf: Prf, password: seq<Byte>, salt: seq<Byte>, i: nat, c: nat, x: nat, k: nat)
    requires c >= 1 && x < 32
    ensures Bit(T(prf, password, salt, i, c)[x], k) <==> Ones(prf, password, salt, i, c, x, k) % 2 == 1
    decreases c
  {
    if c > 1 {
      BlockIsParity(prf, password, salt, i, c - 1, x, k);
      XorIsBitwise(T(prf, password, salt, i, c - 1), U(prf, password, salt, i, c), x, k);
    } else {
      assert Ones(prf, password, salt, i, 0, x, k) == 0;
    }
  }

  /** T_1 || T_2 || ... || T_l. */
  ghost function Blocks(prf: Prf, password: seq<Byte>, salt: seq<Byte>, c: nat, l: nat): (r: seq<Byte>)
    requires c >= 1
    ensures |r| == 32 * l
  {
    if l == 0 then [] else Blocks(prf, password, salt, c, l - 1) + T(prf, password, salt, l, c)
  }

  function BlockCount(length: nat): nat {
    (length + 31) / 32
  }

  /** The first `length` bytes of as many blocks as they need. */
  ghost function DerivedKey(prf: Prf, password: seq<Byte>, salt: seq<Byte>, c: nat, length: nat): (r: seq<Byte>)
    requires c >= 1
    ensures |r| == length
  {
    Blocks(prf, password, salt, c, BlockCount(length))[..length]
  }

  lemma {:induction false} BlocksPrefix(prf: Prf, password: seq<Byte>, salt: seq<Byte>, c: nat, l: nat, m: nat)
    requires c >= 1 && l <= m
    ensures Blocks(prf, password, salt, c, l) <= Blocks(prf, password, salt, c, m)
    decreases m
  {
    if l < m {
      BlocksPrefix(prf, password, salt, c, l, m - 1);
    }
  }

  /** A shorter key is a prefix of a longer one. */
  lemma ShorterIsPrefix(prf: Prf, password: seq<Byte>, salt: seq<Byte>, c: nat, short: nat, long: nat)
    requires c >= 1 && short <= long
    ensures DerivedKey(prf, password, salt, c, short) <= DerivedKey(prf, password, salt, c, long)
  {
    BlocksPrefix(prf, password, salt, c, BlockCount(short), BlockCount(long));
  }

  lemma {:induction false} BlocksAt(prf: Prf, password: seq<Byte>, salt: seq<Byte>, c: nat, l: nat, j: nat, x: nat)
    requires c >= 1 && j < l && x < 32
    ensures Blocks(prf, password, salt, c, l)[32 * j + x] == T(prf, password, salt, j + 1, c)[x]
    decreases l
  {
    if j < l - 1 {
      BlocksAt(prf, password, salt, c, l - 1, j, x);
    }
  }

  /** Byte `32 * j + x` of the key is byte `x` of T_{j + 1}, whatever the key's length. */
  lemma KeyByte(prf: Prf, password: seq<Byte>, salt: seq<Byte>, c: nat, length: nat, j: nat, x: nat)
    requires c >= 1 && x < 32 && 32 * j + x < length
    ensures DerivedKey(prf, password, salt, c, length)[32 * j + x] == T(prf, password, salt, j + 1, c)[x]
  {
    BlocksAt(prf, password, salt, c, BlockCount(length), j, x);
  }

  // ---------- The code ----------

  method Pbkdf2Helper(prf: Prf, password: seq<Byte>, salt: seq<Byte>, iterations: nat, index: nat)
    returns (block: seq<Byte>)
    requires iterations >= 1
    ensures block == T(prf, password, salt, index, iterations)
    ensures var first := prf(password, salt + BigEndian32(index));
      && (iterations == 1 ==> block == first)
      && (iterations == 2 ==> block == Xor(first, prf(password, first)))
  {
    var mac := prf(password, salt + BigEndian32(index));
    var buffer := new Byte[32](i requires 0 <= i < 32 => mac[i]);
    assert buffer[..] == mac;
    for j := 1 to iterations
      invariant mac == U(prf, password, salt, index, j)
      invariant buffer[..] == T(prf, password, salt, index, j)
    {
      mac := prf(password, mac);
      XorInto(buffer, mac);
    }
    OneAndTwo(prf, password, salt, index);
    return buffer[..];
  }

  lemma FitsU32(i: nat, length: nat)
    requires length <= U32_MAX * 32 && i <= BlockCount(length)
    ensures ToU32(i) == i
  {
  }

  lemma CutLast(key: seq<Byte>, block: seq<Byte>, length: nat)
    requires |key| <= length <= |key| + |block|
    ensures (key + block)[..length] == key + block[..length - |key|]
  {
  }

  /** The key is all blocks but the last, and as much of the last as it needs. */
  lemma LastBlock(prf: Prf, password: seq<Byte>, salt: seq<Byte>, c: nat, length: nat)
    requires c >= 1 && length > 0
    ensures var n := BlockCount(length);
      && 0 < length - 32 * (n - 1) <= 32
      && DerivedKey(prf, password, salt, c, length) ==
         Blocks(prf, password, salt, c, n - 1) + T(prf, password, salt, n, c)[..length - 32 * (n - 1)]
  {
    var n := BlockCount(length);
    CutLast(Blocks(prf, password, salt, c, n - 1), T(prf, password, salt, n, c), length);
  }

  /** One pass of the loop: the next block, or of the last one as much as is needed. */
  method AppendBlock(prf: Prf, password: seq<Byte>, salt: seq<Byte>, iterations: nat, length: nat,
                     i: nat, key: seq<Byte>)
    returns (key': seq<Byte>)
    requires iterations >= 1 && 0 < length <= U32_MAX * 32 && 1 <= i <= BlockCount(length)
    requires key == Blocks(prf, password, salt, iterations, i - 1)
    ensures key' == if i == BlockCount(length) then DerivedKey(prf, password, salt, iterations, length)
                    else Blocks(prf, password, salt, iterations, i)
  {
    FitsU32(i, length);
    var block := Pbkdf2Helper(prf, password, salt, iterations, ToU32(i));
    if i == BlockCount(length) {
      LastBlock(prf, password, salt, iterations, length);
      key' := key + block[..length - (i - 1) * 32];
    } else {
      key' := key + block;
    }
  }

  method DeriveKey(prf: Prf, password: seq<Byte>, salt: seq<Byte>, iterations: nat, length: nat)
    returns (r: Result<seq<Byte>>)
    ensures r.Ok? <==> iterations > 0 && 0 < length <= U32_MAX * 32
    ensures r.Ok? ==> r.value == DerivedKey(prf, password, salt, iterations, length)
  {
    if iterations == 0 {
      return Err("iteration count must be a positive integer");
    }
    if length == 0 || length > U32_MAX * 32 {
      return Err("derived key length must be a positive integer and at most (2^32 - 1) * hLen");
    }
    var blockTotal := BlockCount(length);
    var key: seq<Byte> := [];
    var i := 1;
    while i <= blockTotal
      invariant 1 <= i <= blockTotal + 1
      invariant i <= blockTotal ==> key == Blocks(prf, password, salt, iterations, i - 1)
      invariant i == blockTotal + 1 ==> key == DerivedKey(prf, password, salt, iterations, length)
    {
      key := AppendBlock(prf, password, salt, iterations, length, i, key);
      i := i + 1;
    }
    return Ok(key);
  }
}
