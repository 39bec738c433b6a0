/** The XOR checksum of the binary frame format (app3.py, xor_checksum),
    with Python's `^` on non-negative integers defined bit by bit. */
module Checksum {
  import opened Common

  /** Python's `a ^ b` on non-negative integers; it is 0 exactly when the
      operands are equal. */
  function BitXor(a: nat, b: nat): (r: nat)
    ensures r == 0 <==> a == b
    decreases a + b
  {
    if a == 0 then b else if b == 0 then a
    else 2 * BitXor(a / 2, b / 2) + (if a % 2 == b % 2 then 0 else 1)
  }

  function Pow2(k: nat): nat
  {
    if k == 0 then 1 else 2 * Pow2(k - 1)
  }

  /** The low bit and the remaining bits of a XOR. */
  lemma XorHalves(a: nat, b: nat)
    ensures BitXor(a, b) / 2 == BitXor(a / 2, b / 2)
    ensures BitXor(a, b) % 2 == (a % 2 + b % 2) % 2
  {
    if a == 0 {
      assert BitXor(a / 2, b / 2) == b / 2;
    } else if b == 0 {
      assert BitXor(a / 2, b / 2) == a / 2;
    } else {
      var x := BitXor(a / 2, b / 2);
      var bit := if a % 2 == b % 2 then 0 else 1;
      assert BitXor(a, b) == 2 * x + bit;
      assert bit == (a % 2 + b % 2) % 2;
      Halves(x, bit);
    }
  }

  lemma Halves(x: nat, bit: nat)
    requires bit < 2
    ensures (2 * x + bit) / 2 == x && (2 * x + bit) % 2 == bit
  {
  }

  /** XOR of two k-bit numbers is a k-bit number. */
  lemma {:induction false} XorBits(a: nat, b: nat, k: nat)
    requires a < Pow2(k) && b < Pow2(k)
    ensures BitXor(a, b) < Pow2(k)
    decreases k
  {
    if a == 0 && b == 0 {
    } else if k == 0 {
    } else {
      XorBits(a / 2, b / 2, k - 1);
    }
  }

  /** XOR of two bytes is a byte: what makes `& 0xFF` a no-op. */
  lemma XorOfBytes(a: nat, b: nat)
    requires a < 256 && b < 256
    ensures BitXor(a, b) < 256
  {
    assert Pow2(8) == 256;
    XorBits(a, b, 8);
  }

  lemma {:induction false} XorSelf(a: nat)
    ensures BitXor(a, a) == 0
    decreases a
  {
    if a != 0 {
      XorSelf(a / 2);
    }
  }

  lemma SameHalves(x: nat, y: nat)
    requires x / 2 == y / 2 && x % 2 == y % 2
    ensures x == y
  {
  }

  lemma ParityAssociative(pa: int, pb: int, pc: int)
    requires 0 <= pa < 2 && 0 <= pb < 2 && 0 <= pc < 2
    ensures ((pa + pb) % 2 + pc) % 2 == (pa + (pb + pc) % 2) % 2
  {
  }

  lemma {:induction false} XorAssociative(a: nat, b: nat, c: nat)
    ensures BitXor(BitXor(a, b), c) == BitXor(a, BitXor(b, c))
    decreases a + b + c
  {
    if a == 0 && b == 0 && c == 0 {
    } else {
      var ab, bc := BitXor(a, b), BitXor(b, c);
      var l, r := BitXor(ab, c), BitXor(a, bc);
      assert l / 2 == r / 2 by {
        XorHalves(a, b);
        XorHalves(b, c);
        XorHalves(ab, c);
        XorHalves(a, bc);
        XorAssociative(a / 2, b / 2, c / 2);
      }
      assert l % 2 == r % 2 by {
        XorHalves(a, b);
        XorHalves(b, c);
        XorHalves(ab, c);
        XorHalves(a, bc);
        ParityAssociative(a % 2, b % 2, c % 2);
      }
      SameHalves(l, r);
    }
  }

  /** XOR of all bytes of `s`, folded from the left starting at 0; always
      a byte. One byte is its own checksum, and two bytes XOR to zero
      exactly when they are equal. */
  function Xor(s: seq<byte>): (r: byte)
    ensures |s| == 1 ==> r == s[0]
    ensures |s| == 2 ==> (r == 0 <==> s[0] == s[1])
  {
    if s == [] then 0
    else
      var acc := Xor(s[..|s| - 1]);
      XorOfBytes(acc, s[|s| - 1]);
      BitXor(acc, s[|s| - 1])
  }

  /** The checksum distributes over concatenation. */
  lemma {:induction false} XorAppend(a: seq<byte>, b: seq<byte>)
    ensures Xor(a + b) == BitXor(Xor(a), Xor(b))
    decreases |b|
  {
    if b == [] {
      assert a + b == a;
    } else {
      var b' := b[..|b| - 1];
      assert (a + b)[..|a + b| - 1] == a + b';
      XorAppend(a, b');
      XorAssociative(Xor(a), Xor(b'), b[|b| - 1]);
    }
  }

  /** A block followed by its own checksum XORs to zero. */
  lemma XorWithChecksumIsZero(s: seq<byte>)
    ensures Xor(s + [Xor(s)]) == 0
  {
    assert (s + [Xor(s)])[..|s|] == s;
    XorSelf(Xor(s));
  }

  /** The frame check `chk != calc` read as a XOR: a block followed by a
      byte XORs to zero exactly when that byte is the block's checksum. */
  lemma ChecksumMatches(block: seq<byte>, chk: byte)
    ensures Xor(block + [chk]) == 0 <==> chk == Xor(block)
  {
    assert (block + [chk])[..|block|] == block;
  }

  /** The loop of xor_checksum: `chk ^= x` over every byte, then
      `chk & 0xFF`, which for a non-negative `chk` is `chk % 256`. The
      mask never changes the value, because a XOR of bytes is a byte. */
  method XorChecksum(b: seq<byte>) returns (chk: int)
    ensures chk == Xor(b)
  {
    var acc: nat := 0;
    for i := 0 to |b|
      invariant acc == Xor(b[..i])
    {
      assert b[..i + 1][..i] == b[..i];
      acc := BitXor(acc, b[i]);
    }
    assert b[..|b|] == b;
    chk := acc % 256;
  }
}
