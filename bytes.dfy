/** Bytes as the cipher sees them: each `char` of a C++ `std::string`,
    read as an `unsigned char`, is an 8-bit vector. */
module Bytes {

  type byte = bv8

  /** The byte whose only set bit is bit `j`, counting `j == 0` as the most
      significant bit. */
  function Mask(j: int): (m: byte)
    requires 0 <= j < 8
  {
    [0x80, 0x40, 0x20, 0x10, 0x08, 0x04, 0x02, 0x01][j]
  }

  /** Bit `j` of `c`, counting `j == 0` as the most significant bit. */
  predicate BitOf(c: byte, j: int)
    requires 0 <= j < 8
  {
    c & Mask(j) != 0
  }

  /** `(c >> (7 - j)) & 1`, as text_to_bitset computes it, reads bit `j`. */
  lemma ShiftReadsBit(c: byte, j: int)
    requires 0 <= j < 8
    ensures ((c >> (7 - j)) & 1 == 1) == BitOf(c, j)
  {
    if j == 0 {} else if j == 1 {} else if j == 2 {} else if j == 3 {}
    else if j == 4 {} else if j == 5 {} else if j == 6 {} else {}
  }

  /** `bit << (7 - j)`, as bitset_to_text computes it, is bit `j` alone. */
  lemma ShiftWritesBit(bit: byte, j: int)
    requires bit == 0 || bit == 1
    requires 0 <= j < 8
    ensures bit << (7 - j) == if bit == 1 then Mask(j) else 0
  {
    if j == 0 {} else if j == 1 {} else if j == 2 {} else if j == 3 {}
    else if j == 4 {} else if j == 5 {} else if j == 6 {} else {}
  }

  /** The byte whose leading `|bs|` bits, most significant first, are `bs`
      and whose remaining bits are 0: what `c |= bit << (7 - j)` builds. */
  function Pack(bs: seq<bool>): (c: byte)
    requires |bs| <= 8
    decreases |bs|
  {
    if bs == [] then 0
    else Pack(bs[..|bs| - 1]) | (if bs[|bs| - 1] then Mask(|bs| - 1) else 0)
  }

  /** One step of bitset_to_text's inner loop: or-ing in the next bit at
      its place extends the packed prefix by that bit. */
  lemma PackStep(bs: seq<bool>, j: int, c: byte, bit: byte)
    requires 0 <= j < |bs| <= 8 && c == Pack(bs[..j])
    requires bit == if bs[j] then 1 else 0
    ensures c | (bit << (7 - j)) == Pack(bs[..j + 1])
  {
    ShiftWritesBit(bit, j);
    assert bs[..j + 1][..j] == bs[..j];
  }

  /** The eight bits of `c`, most significant first. */
  function Unpack(c: byte): (bs: seq<bool>)
    ensures |bs| == 8
  {
    seq(8, j requires 0 <= j < 8 => BitOf(c, j))
  }

  /** Bit `j` of a packed byte is the `j`-th packed bit, and 0 past the end. */
  lemma {:induction false} PackBit(bs: seq<bool>, j: int)
    requires |bs| <= 8 && 0 <= j < 8
    ensures BitOf(Pack(bs), j) == (j < |bs| && bs[j])
    decreases |bs|
  {
    if bs != [] {
      var init := bs[..|bs| - 1];
      PackBit(init, j);
      var n := |bs|;
      var p, m: byte := Pack(init), if bs[n - 1] then Mask(n - 1) else 0;
      assert Pack(bs) == p | m;
      OrBit(p, m, j);
      MaskBit(bs[n - 1], n, j);
      assert j < n - 1 ==> init[j] == bs[j];
    }
  }

  lemma OrBit(a: byte, b: byte, j: int)
    requires 0 <= j < 8
    ensures BitOf(a | b, j) == (BitOf(a, j) || BitOf(b, j))
  {
    if j == 0 {} else if j == 1 {} else if j == 2 {} else if j == 3 {}
    else if j == 4 {} else if j == 5 {} else if j == 6 {} else {}
  }

  lemma MaskBit(b: bool, n: int, j: int)
    requires 1 <= n <= 8 && 0 <= j < 8
    ensures BitOf(if b then Mask(n - 1) else 0, j) == (b && j == n - 1)
  {
    if j == 0 {} else if j == 1 {} else if j == 2 {} else if j == 3 {}
    else if j == 4 {} else if j == 5 {} else if j == 6 {} else {}
  }

  /** Two bytes that agree on every bit are equal. */
  lemma ByteExt(a: byte, b: byte)
    requires forall j :: 0 <= j < 8 ==> BitOf(a, j) == BitOf(b, j)
    ensures a == b
  {
    assert BitOf(a, 0) == BitOf(b, 0) && BitOf(a, 1) == BitOf(b, 1);
    assert BitOf(a, 2) == BitOf(b, 2) && BitOf(a, 3) == BitOf(b, 3);
    assert BitOf(a, 4) == BitOf(b, 4) && BitOf(a, 5) == BitOf(b, 5);
    assert BitOf(a, 6) == BitOf(b, 6) && BitOf(a, 7) == BitOf(b, 7);
  }

  /** Packing the bits of a byte gives the byte back. */
  lemma PackUnpack(c: byte)
    ensures Pack(Unpack(c)) == c
  {
    forall j | 0 <= j < 8
      ensures BitOf(Pack(Unpack(c)), j) == BitOf(c, j)
    {
      PackBit(Unpack(c), j);
    }
    ByteExt(Pack(Unpack(c)), c);
  }

  /** Unpacking a packed byte gives its eight bits back. */
  lemma UnpackPack(bs: seq<bool>)
    requires |bs| == 8
    ensures Unpack(Pack(bs)) == bs
  {
    forall j | 0 <= j < 8
      ensures Unpack(Pack(bs))[j] == bs[j]
    {
      PackBit(bs, j);
    }
  }

  /** Bytewise exclusive or, as in `x.push_back(a[j] ^ b[j])`. */
  function XorBytes(a: seq<byte>, b: seq<byte>): (x: seq<byte>)
    requires |a| == |b|
    ensures |x| == |a|
  {
    seq(|a|, i requires 0 <= i < |a| => a[i] ^ b[i])
  }

  /** Xor with the same bytes twice is the identity. */
  lemma XorBytesTwice(a: seq<byte>, b: seq<byte>)
    requires |a| == |b|
    ensures XorBytes(XorBytes(a, b), b) == a
  {
    assert forall i :: 0 <= i < |a| ==> (a[i] ^ b[i]) ^ b[i] == a[i];
  }

  /** `string(n, '\0')`. */
  function Zeros(n: nat): (z: seq<byte>)
    ensures |z| == n && forall i :: 0 <= i < n ==> z[i] == 0
  {
    seq(n, _ => 0)
  }
}
