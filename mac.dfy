/**
  CBC-MAC as the bootloader computes it over the update bundle: a 16-byte
  running value, reset to zero at the start of each pass, into which every
  16-byte block of data is folded as `mac := E(mac XOR block)`.

  The block cipher E (AES under the signing key) is a parameter: nothing here
  depends on how it is computed, only on it being a deterministic function and,
  for tamper detection, on it being injective (a block cipher under a fixed key
  is a permutation).
*/
module CbcMac {

  const BLOCK_SIZE: nat := 16

  type Block = s: seq<bv8> | |s| == BLOCK_SIZE witness seq(16, _ => 0 as bv8)

  /** The value the running MAC is reset to at the start of each pass. */
  const ZERO: Block := [0, 0, 0, 0, 0, 0, 0, 0, 0, 0, 0, 0, 0, 0, 0, 0]

  function Xor(a: Block, b: Block): Block
  {
    seq(BLOCK_SIZE, i requires 0 <= i < BLOCK_SIZE => a[i] ^ b[i])
  }

  /** Folds `data`, a whole number of blocks, into the running value `mac`. */
  function Fold(cipher: Block -> Block, mac: Block, data: seq<bv8>): Block
    requires |data| % BLOCK_SIZE == 0
    decreases |data|
  {
    if |data| == 0 then mac
    else Fold(cipher, cipher(Xor(mac, data[..BLOCK_SIZE])), data[BLOCK_SIZE..])
  }

  ghost predicate Injective(cipher: Block -> Block)
  {
    forall x: Block, y: Block :: cipher(x) == cipher(y) ==> x == y
  }

  /** Folding two pieces one after the other is folding their concatenation:
      the MAC does not depend on how the data is cut into chunks, as long as
      every cut falls on a block boundary. */
  lemma {:induction false} FoldAppend(cipher: Block -> Block, mac: Block, a: seq<bv8>, b: seq<bv8>)
    requires |a| % BLOCK_SIZE == 0 && |b| % BLOCK_SIZE == 0
    ensures |a + b| % BLOCK_SIZE == 0
    ensures Fold(cipher, mac, a + b) == Fold(cipher, Fold(cipher, mac, a), b)
    decreases |a|
  {
    if |a| == 0 {
      assert a + b == b;
    } else {
      assert (a + b)[..BLOCK_SIZE] == a[..BLOCK_SIZE];
      assert (a + b)[BLOCK_SIZE..] == a[BLOCK_SIZE..] + b;
      FoldAppend(cipher, cipher(Xor(mac, a[..BLOCK_SIZE])), a[BLOCK_SIZE..], b);
    }
  }

  /** XOR with the same block keeps distinct values distinct. */
  lemma XorKeepsApart(m1: Block, m2: Block, b: Block)
    requires m1 != m2
    ensures Xor(m1, b) != Xor(m2, b)
  {
    var i :| 0 <= i < BLOCK_SIZE && m1[i] != m2[i];
    XorCancel(m1[i], b[i]);
    XorCancel(m2[i], b[i]);
    assert Xor(m1, b)[i] != Xor(m2, b)[i];
  }

  lemma XorCancel(x: bv8, y: bv8)
    ensures (x ^ y) ^ y == x
  {
  }

  /** With an injective cipher, two running values that differ stay different
      while the same data is folded into both. */
  lemma {:induction false} FoldKeepsApart(cipher: Block -> Block, m1: Block, m2: Block, data: seq<bv8>)
    requires Injective(cipher) && m1 != m2 && |data| % BLOCK_SIZE == 0
    ensures Fold(cipher, m1, data) != Fold(cipher, m2, data)
    decreases |data|
  {
    if |data| != 0 {
      var b: Block := data[..BLOCK_SIZE];
      XorKeepsApart(m1, m2, b);
      FoldKeepsApart(cipher, cipher(Xor(m1, b)), cipher(Xor(m2, b)), data[BLOCK_SIZE..]);
    }
  }

  /** Two equally long messages that differ only inside their j-th block get
      different MACs (for an injective cipher). */
  lemma {:induction false} OneBlockChangeDetected(cipher: Block -> Block, mac: Block, a: seq<bv8>, b: seq<bv8>, j: nat)
    requires Injective(cipher)
    requires |a| == |b| && |a| % BLOCK_SIZE == 0 && BLOCK_SIZE * j + BLOCK_SIZE <= |a|
    requires a[..BLOCK_SIZE * j] == b[..BLOCK_SIZE * j]
    requires a[BLOCK_SIZE * j + BLOCK_SIZE..] == b[BLOCK_SIZE * j + BLOCK_SIZE..]
    requires a != b
    ensures Fold(cipher, mac, a) != Fold(cipher, mac, b)
    decreases j
  {
    var a0: Block, b0: Block := a[..BLOCK_SIZE], b[..BLOCK_SIZE];
    if j == 0 {
      assert a == a0 + a[BLOCK_SIZE..] && b == b0 + b[BLOCK_SIZE..];
      XorKeepsApart(a0, b0, mac);
      assert Xor(mac, a0) == Xor(a0, mac) && Xor(mac, b0) == Xor(b0, mac);
      FoldKeepsApart(cipher, cipher(Xor(mac, a0)), cipher(Xor(mac, b0)), a[BLOCK_SIZE..]);
    } else {
      assert a0 == a[..BLOCK_SIZE * j][..BLOCK_SIZE] && b0 == b[..BLOCK_SIZE * j][..BLOCK_SIZE];
      var a', b' := a[BLOCK_SIZE..], b[BLOCK_SIZE..];
      assert a'[..BLOCK_SIZE * (j - 1)] == a[BLOCK_SIZE..BLOCK_SIZE * j];
      assert b'[..BLOCK_SIZE * (j - 1)] == b[BLOCK_SIZE..BLOCK_SIZE * j];
      assert a[BLOCK_SIZE..BLOCK_SIZE * j] == a[..BLOCK_SIZE * j][BLOCK_SIZE..];
      assert b[BLOCK_SIZE..BLOCK_SIZE * j] == b[..BLOCK_SIZE * j][BLOCK_SIZE..];
      assert a'[BLOCK_SIZE * (j - 1) + BLOCK_SIZE..] == a[BLOCK_SIZE * j + BLOCK_SIZE..];
      assert b'[BLOCK_SIZE * (j - 1) + BLOCK_SIZE..] == b[BLOCK_SIZE * j + BLOCK_SIZE..];
      assert a == a0 + a' && b == b0 + b';
      OneBlockChangeDetected(cipher, cipher(Xor(mac, a0)), a', b', j - 1);
    }
  }

  /** Two equally long messages that differ in exactly one byte get different
      MACs (for an injective cipher). */
  lemma SingleByteChangeDetected(cipher: Block -> Block, mac: Block, a: seq<bv8>, b: seq<bv8>, p: nat)
    requires Injective(cipher)
    requires |a| == |b| && |a| % BLOCK_SIZE == 0 && p < |a|
    requires a[p] != b[p]
    requires forall i :: 0 <= i < |a| && i != p ==> a[i] == b[i]
    ensures Fold(cipher, mac, a) != Fold(cipher, mac, b)
  {
    var j := p / BLOCK_SIZE;
    assert BLOCK_SIZE * j <= p < BLOCK_SIZE * j + BLOCK_SIZE;
    assert BLOCK_SIZE * j + BLOCK_SIZE <= |a| by {
      assert |a| == BLOCK_SIZE * (|a| / BLOCK_SIZE);
      assert j < |a| / BLOCK_SIZE;
    }
    assert a[..BLOCK_SIZE * j] == b[..BLOCK_SIZE * j];
    assert a[BLOCK_SIZE * j + BLOCK_SIZE..] == b[BLOCK_SIZE * j + BLOCK_SIZE..];
    OneBlockChangeDetected(cipher, mac, a, b, j);
  }
}
