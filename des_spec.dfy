/** What each helper of class DES in src/des.cpp computes, as pure functions
    over bit sequences, and what those functions satisfy.

    A `bitset<N>` is a `Bits` of length N whose element k is bit k of the
    bitset (element 0 is the least significant bit). Note that the code's
    half split puts the low-order bits into L, the opposite of the bit
    numbering of FIPS PUB 46-3, so the cipher below is DES-shaped but is not
    standard DES. */
module DesSpec {
  import opened Bytes
  import opened DesTables

  type Bits = seq<bool>

  // ---------------------------------------------------------------------
  // text_to_bitset and bitset_to_text

  /** Byte i, bit j (most significant first) goes to block bit 63 - (8i + j). */
  function TextToBlock(text: seq<byte>): (b: Bits)
    requires |text| >= 8
    ensures |b| == 64
  {
    seq(64, k requires 0 <= k < 64 => BlockBit(text, k))
  }

  predicate BlockBit(text: seq<byte>, k: int)
    requires |text| >= 8 && 0 <= k < 64
  {
    BitOf(text[(63 - k) / 8], (63 - k) % 8)
  }

  lemma TextToBlockBit(text: seq<byte>, i: int, j: int)
    requires |text| >= 8 && 0 <= i < 8 && 0 <= j < 8
    ensures TextToBlock(text)[63 - (8 * i + j)] == BitOf(text[i], j)
  {
    DivMod8(i, j);
  }

  lemma DivMod8(i: int, j: int)
    requires 0 <= i < 8 && 0 <= j < 8
    ensures (8 * i + j) / 8 == i && (8 * i + j) % 8 == j
  {
  }

  /** The eight block bits that make up byte i, most significant first. */
  function ByteBits(b: Bits, i: int): (bs: Bits)
    requires |b| == 64 && 0 <= i < 8
    ensures |bs| == 8
  {
    seq(8, j requires 0 <= j < 8 => BitOfByte(b, i, j))
  }

  predicate BitOfByte(b: Bits, i: int, j: int)
    requires |b| == 64 && 0 <= i < 8 && 0 <= j < 8
  {
    b[63 - (8 * i + j)]
  }

  function BlockToText(b: Bits): (t: seq<byte>)
    requires |b| == 64
    ensures |t| == 8
  {
    seq(8, i requires 0 <= i < 8 => Pack(ByteBits(b, i)))
  }

  /** The eight block bits of byte i are the bits of byte i of the text. */
  lemma ByteBitsOfText(text: seq<byte>, i: int)
    requires |text| >= 8 && 0 <= i < 8
    ensures ByteBits(TextToBlock(text), i) == Unpack(text[i])
  {
    forall j | 0 <= j < 8
      ensures ByteBits(TextToBlock(text), i)[j] == Unpack(text[i])[j]
    {
      TextToBlockBit(text, i, j);
    }
  }

  /** Converting the first eight bytes to a block and back gives them back. */
  lemma TextRoundTrip(text: seq<byte>)
    requires |text| >= 8
    ensures BlockToText(TextToBlock(text)) == text[..8]
  {
    forall i | 0 <= i < 8
      ensures BlockToText(TextToBlock(text))[i] == text[i]
    {
      ByteBitsOfText(text, i);
      PackUnpack(text[i]);
    }
  }

  /** Bit k of the block is bit (63 - k) mod 8 of byte (63 - k) / 8. */
  lemma BlockBitOfText(b: Bits, k: int)
    requires |b| == 64 && 0 <= k < 64
    ensures TextToBlock(BlockToText(b))[k] == b[k]
  {
    var i, j := (63 - k) / 8, (63 - k) % 8;
    UnpackPack(ByteBits(b, i));
    assert BlockToText(b)[i] == Pack(ByteBits(b, i));
    assert Unpack(Pack(ByteBits(b, i)))[j] == ByteBits(b, i)[j];
  }

  /** Converting a block to text and back gives the block back. */
  lemma BlockRoundTrip(b: Bits)
    requires |b| == 64
    ensures TextToBlock(BlockToText(b)) == b
  {
    forall k | 0 <= k < 64
      ensures TextToBlock(BlockToText(b))[k] == b[k]
    {
      BlockBitOfText(b, k);
    }
  }

  // ---------------------------------------------------------------------
  // p_box

  /** Output position p (counted 1.. from the most significant end) takes
      input position table[p - 1], counted the same way. */
  function PBox(input: Bits, table: seq<int>): (out: Bits)
    requires Selects(table, |table|, |input|)
    ensures |out| == |table|
  {
    seq(|table|, k requires 0 <= k < |table| => PBoxBit(input, table, k))
  }

  predicate PBoxBit(input: Bits, table: seq<int>, k: int)
    requires Selects(table, |table|, |input|) && 0 <= k < |table|
  {
    input[|input| - table[|table| - 1 - k]]
  }

  /** Permuting by b and then by a table that undoes b is the identity. */
  lemma PBoxUndo(x: Bits, a: seq<int>, b: seq<int>)
    requires |x| == 64 && Selects(a, 64, 64) && Selects(b, 64, 64) && Undoes(b, a)
    ensures PBox(PBox(x, b), a) == x
  {
    var y := PBox(x, b);
    forall k | 0 <= k < 64
      ensures PBox(y, a)[k] == x[k]
    {
      var m := 64 - a[63 - k];
      assert PBox(y, a)[k] == y[m];
      assert UndoesAt(b, a, 63 - k);
    }
  }

  // ---------------------------------------------------------------------
  // left_shift and the key schedule (round_key_gen_split, merge_halves,
  // round_key_store)

  /** Bit i of the result is bit (i + s) mod 28 of h. */
  function LeftShift(h: Bits, s: int): (r: Bits)
    requires |h| == 28 && s >= 0
    ensures |r| == 28
  {
    seq(28, i requires 0 <= i < 28 => RotatedBit(h, s, i))
  }

  predicate RotatedBit(h: Bits, s: int, i: int)
    requires |h| == 28 && s >= 0 && 0 <= i < 28
  {
    h[(i + s) % 28]
  }

  /** Shifting by 0 or by 28 changes nothing. */
  lemma LeftShiftIdentity(h: Bits)
    requires |h| == 28
    ensures LeftShift(h, 0) == h && LeftShift(h, 28) == h
  {
    forall i | 0 <= i < 28
      ensures LeftShift(h, 28)[i] == h[i]
    {
      assert (i + 28) % 28 == i;
    }
  }

  lemma ModAdd28(x: int, a: int)
    requires x >= 0 && a >= 0
    ensures (x % 28 + a) % 28 == (x + a) % 28
  {
    var q := x / 28;
    assert x == 28 * q + x % 28;
    assert x + a == 28 * q + (x % 28 + a);
  }

  /** Two shifts compose into one shift by the sum of the amounts. */
  lemma LeftShiftCompose(h: Bits, a: int, b: int)
    requires |h| == 28 && a >= 0 && b >= 0
    ensures LeftShift(LeftShift(h, a), b) == LeftShift(h, a + b)
  {
    forall i | 0 <= i < 28
      ensures LeftShift(LeftShift(h, a), b)[i] == LeftShift(h, a + b)[i]
    {
      ModAdd28(i + b, a);
    }
  }

  /** The total shift applied to each key half after `i` rounds. */
  function ShiftSum(t: WfTables, i: nat): (n: int)
    requires i <= 16
    ensures n >= 0
  {
    if i == 0 then 0 else ShiftSum(t, i - 1) + t.Shift[i - 1]
  }

  /** PC-1 applied to the key block, split into C (low 28 bits) and D. */
  function KeyHalves0(key: seq<byte>, t: WfTables): (cd: (Bits, Bits))
    requires |key| >= 8
    ensures |cd.0| == 28 && |cd.1| == 28
  {
    var k56 := PBox(TextToBlock(key), t.PC1);
    (k56[..28], k56[28..])
  }

  /** C and D after the shifts of the first `i` rounds. */
  function KeyHalves(key: seq<byte>, t: WfTables, i: nat): (cd: (Bits, Bits))
    requires |key| >= 8 && i <= 16
    ensures |cd.0| == 28 && |cd.1| == 28
  {
    if i == 0 then KeyHalves0(key, t)
    else
      var cd := KeyHalves(key, t, i - 1);
      (LeftShift(cd.0, t.Shift[i - 1]), LeftShift(cd.1, t.Shift[i - 1]))
  }

  /** The halves of round i are the original halves rotated by the sum of
      the first i shift amounts. */
  lemma {:induction false} KeyHalvesRotated(key: seq<byte>, t: WfTables, i: nat)
    requires |key| >= 8 && i <= 16
    ensures KeyHalves(key, t, i) ==
      (LeftShift(KeyHalves0(key, t).0, ShiftSum(t, i)), LeftShift(KeyHalves0(key, t).1, ShiftSum(t, i)))
  {
    var cd0 := KeyHalves0(key, t);
    if i == 0 {
      LeftShiftIdentity(cd0.0);
      LeftShiftIdentity(cd0.1);
    } else {
      KeyHalvesRotated(key, t, i - 1);
      LeftShiftCompose(cd0.0, ShiftSum(t, i - 1), t.Shift[i - 1]);
      LeftShiftCompose(cd0.1, ShiftSum(t, i - 1), t.Shift[i - 1]);
    }
  }

  /** A list of 48-bit round keys. */
  predicate KeyList(ks: seq<Bits>)
  {
    forall i :: 0 <= i < |ks| ==> |ks[i]| == 48
  }

  /** The sixteen round keys: PC-2 of the merged halves of each round. */
  function RoundKeys(key: seq<byte>, t: WfTables): (ks: seq<Bits>)
    requires |key| >= 8
    ensures |ks| == 16 && KeyList(ks)
  {
    seq(16, i requires 0 <= i < 16 =>
      var cd := KeyHalves(key, t, i + 1);
      PBox(cd.0 + cd.1, t.PC2))
  }

  /** Round key i is PC-2 of C0 and D0, each rotated by the first i+1 shifts
      and merged with C in the low 28 bits. */
  lemma RoundKeyShape(key: seq<byte>, t: WfTables, i: int)
    requires |key| >= 8 && 0 <= i < 16
    ensures var cd0 := KeyHalves0(key, t);
      RoundKeys(key, t)[i] ==
        PBox(LeftShift(cd0.0, ShiftSum(t, i + 1)) + LeftShift(cd0.1, ShiftSum(t, i + 1)), t.PC2)
  {
    KeyHalvesRotated(key, t, i + 1);
  }

  function Reverse<T>(s: seq<T>): (r: seq<T>)
    ensures |r| == |s|
  {
    seq(|s|, i requires 0 <= i < |s| => s[|s| - 1 - i])
  }

  lemma ReverseReverse<T>(s: seq<T>)
    ensures Reverse(Reverse(s)) == s
  {
  }

  // ---------------------------------------------------------------------
  // s_box

  function BitValue(b: bool): int
  {
    if b then 1 else 0
  }

  /** The row of group g: its two outer bits, the first one high. */
  function SRow(x: Bits, g: int): (row: int)
    requires |x| == 48 && 0 <= g < 8
    ensures 0 <= row < 4
  {
    2 * BitValue(x[6 * g]) + BitValue(x[6 * g + 5])
  }

  /** The column of group g: its four inner bits, the first one high. */
  function SCol(x: Bits, g: int): (col: int)
    requires |x| == 48 && 0 <= g < 8
    ensures 0 <= col < 16
  {
    8 * BitValue(x[6 * g + 1]) + 4 * BitValue(x[6 * g + 2]) +
    2 * BitValue(x[6 * g + 3]) + BitValue(x[6 * g + 4])
  }

  /** Bit k of `bitset<4>(v)`: the constructor keeps the low four bits of v. */
  function NibbleBit(v: int, k: int): bool
    requires 0 <= k < 4
  {
    (v % 16) / [1, 2, 4, 8][k] % 2 == 1
  }

  /** Output bits 4g..4g+3 hold box g's entry, most significant bit first. */
  function SBox(x: Bits, S: seq<seq<seq<int>>>): (out: Bits)
    requires |x| == 48 && SBoxShape(S)
    ensures |out| == 32
  {
    seq(32, o requires 0 <= o < 32 => SBoxBit(x, S, o))
  }

  predicate SBoxBit(x: Bits, S: seq<seq<seq<int>>>, o: int)
    requires |x| == 48 && SBoxShape(S) && 0 <= o < 32
  {
    NibbleBit(S[o / 4][SRow(x, o / 4)][SCol(x, o / 4)], 3 - o % 4)
  }

  /** The four output bits of group g, read most significant first, are the
      entry of box g at the row of its outer bits and the column of its
      inner bits (reduced to four bits). */
  lemma SBoxGroup(x: Bits, S: seq<seq<seq<int>>>, g: int)
    requires |x| == 48 && SBoxShape(S) && 0 <= g < 8
    ensures var out := SBox(x, S);
      8 * BitValue(out[4 * g]) + 4 * BitValue(out[4 * g + 1]) +
      2 * BitValue(out[4 * g + 2]) + BitValue(out[4 * g + 3])
      == S[g][SRow(x, g)][SCol(x, g)] % 16
  {
    var out := SBox(x, S);
    var v := S[g][SRow(x, g)][SCol(x, g)];
    DivMod4(g, 0);
    DivMod4(g, 1);
    DivMod4(g, 2);
    DivMod4(g, 3);
    assert out[4 * g] == NibbleBit(v, 3);
    assert out[4 * g + 1] == NibbleBit(v, 2);
    assert out[4 * g + 2] == NibbleBit(v, 1);
    assert out[4 * g + 3] == NibbleBit(v, 0);
    NibbleSum(v);
  }

  lemma DivMod4(g: int, r: int)
    requires 0 <= g < 8 && 0 <= r < 4
    ensures (4 * g + r) / 4 == g && (4 * g + r) % 4 == r
  {
  }

  /** The four bits of `bitset<4>(v)`, most significant first, spell v mod 16. */
  lemma NibbleSum(v: int)
    ensures 8 * BitValue(NibbleBit(v, 3)) + 4 * BitValue(NibbleBit(v, 2)) +
      2 * BitValue(NibbleBit(v, 1)) + BitValue(NibbleBit(v, 0)) == v % 16
  {
    var n := v % 16;
    assert 0 <= n < 16;
    assert n == 8 * (n / 8 % 2) + 4 * (n / 4 % 2) + 2 * (n / 2 % 2) + n % 2;
  }

  // ---------------------------------------------------------------------
  // The Feistel rounds of encrypt and decrypt

  function XorBits(a: Bits, b: Bits): (x: Bits)
    requires |a| == |b|
    ensures |x| == |a|
  {
    seq(|a|, i requires 0 <= i < |a| => XorBit(a, b, i))
  }

  predicate XorBit(a: Bits, b: Bits, i: int)
    requires |a| == |b| && 0 <= i < |a|
  {
    a[i] != b[i]
  }

  lemma XorBitsTwice(a: Bits, b: Bits)
    requires |a| == |b|
    ensures XorBits(XorBits(a, b), b) == a
  {
  }

  /** The round function: expand, mix in the key, substitute, permute. */
  function RoundFunction(r: Bits, k: Bits, t: WfTables): (f: Bits)
    requires |r| == 32 && |k| == 48
    ensures |f| == 32
  {
    PBox(SBox(XorBits(PBox(r, t.E), k), t.S), t.P)
  }

  /** (L, R) after one round per key, the last key applied last. */
  function Rounds(l: Bits, r: Bits, ks: seq<Bits>, t: WfTables): (lr: (Bits, Bits))
    requires |l| == 32 && |r| == 32 && KeyList(ks)
    ensures |lr.0| == 32 && |lr.1| == 32
    decreases |ks|
  {
    if ks == [] then (l, r)
    else
      var lr := Rounds(l, r, ks[..|ks| - 1], t);
      (lr.1, XorBits(lr.0, RoundFunction(lr.1, ks[|ks| - 1], t)))
  }

  /** The first round can be split off the front. */
  lemma {:induction false} RoundsFront(l: Bits, r: Bits, k: Bits, ks: seq<Bits>, t: WfTables)
    requires |l| == 32 && |r| == 32 && |k| == 48 && KeyList(ks)
    ensures KeyList([k] + ks)
    ensures Rounds(l, r, [k] + ks, t) == Rounds(r, XorBits(l, RoundFunction(r, k, t)), ks, t)
    decreases |ks|
  {
    if ks != [] {
      assert ([k] + ks)[..|ks|] == [k] + ks[..|ks| - 1];
      RoundsFront(l, r, k, ks[..|ks| - 1], t);
    } else {
      assert ([k] + ks)[..0] == [];
    }
  }

  /** Running the rounds on the swapped output with the keys reversed
      gives back the swapped input. */
  lemma {:induction false} RoundsUndo(l: Bits, r: Bits, ks: seq<Bits>, t: WfTables)
    requires |l| == 32 && |r| == 32 && KeyList(ks)
    ensures KeyList(Reverse(ks))
    ensures var lr := Rounds(l, r, ks, t);
      Rounds(lr.1, lr.0, Reverse(ks), t) == (r, l)
    decreases |ks|
  {
    if ks == [] {
      assert Reverse(ks) == [];
    } else {
      var init, k := ks[..|ks| - 1], ks[|ks| - 1];
      var lr := Rounds(l, r, init, t);
      RoundsUndo(l, r, init, t);
      assert Reverse(ks) == [k] + Reverse(init);
      var f := RoundFunction(lr.1, k, t);
      RoundsFront(XorBits(lr.0, f), lr.1, k, Reverse(init), t);
      XorBitsTwice(lr.0, f);
    }
  }

  /** encrypt and decrypt: the same network run with a given key list. */
  function Cipher(text: seq<byte>, ks: seq<Bits>, t: WfTables): (c: seq<byte>)
    requires |text| >= 8 && |ks| == 16 && KeyList(ks)
    ensures |c| == 8
  {
    var msg := PBox(TextToBlock(text), t.IP);
    var lr := Rounds(msg[..32], msg[32..], ks, t);
    BlockToText(PBox(lr.1 + lr.0, t.FP))
  }

  /** Running the network with the reversed key list undoes it. */
  lemma CipherUndo(text: seq<byte>, ks: seq<Bits>, t: WfTables)
    requires |text| >= 8 && |ks| == 16 && KeyList(ks)
    ensures KeyList(Reverse(ks))
    ensures Cipher(Cipher(text, ks, t), Reverse(ks), t) == text[..8]
  {
    var tb := TextToBlock(text);
    var msg := PBox(tb, t.IP);
    var lr := Rounds(msg[..32], msg[32..], ks, t);
    var y := PBox(lr.1 + lr.0, t.FP);
    RoundsUndo(msg[..32], msg[32..], ks, t);
    BlockRoundTrip(y);
    PBoxUndo(lr.1 + lr.0, t.IP, t.FP);
    assert (lr.1 + lr.0)[..32] == lr.1 && (lr.1 + lr.0)[32..] == lr.0;
    assert msg[..32] + msg[32..] == msg;
    PBoxUndo(tb, t.FP, t.IP);
    TextRoundTrip(text);
  }

  function EncryptBlock(text: seq<byte>, key: seq<byte>, t: WfTables): (c: seq<byte>)
    requires |text| >= 8 && |key| >= 8
    ensures |c| == 8
  {
    Cipher(text, RoundKeys(key, t), t)
  }

  function DecryptBlock(text: seq<byte>, key: seq<byte>, t: WfTables): (p: seq<byte>)
    requires |text| >= 8 && |key| >= 8
    ensures |p| == 8
  {
    Cipher(text, Reverse(RoundKeys(key, t)), t)
  }

  /** decrypt(encrypt(b, k), k) is the first eight bytes of b. */
  lemma DecryptEncrypt(text: seq<byte>, key: seq<byte>, t: WfTables)
    requires |text| >= 8 && |key| >= 8
    ensures DecryptBlock(EncryptBlock(text, key, t), key, t) == text[..8]
  {
    CipherUndo(text, RoundKeys(key, t), t);
  }

  /** encrypt(decrypt(c, k), k) is the first eight bytes of c. */
  lemma EncryptDecrypt(text: seq<byte>, key: seq<byte>, t: WfTables)
    requires |text| >= 8 && |key| >= 8
    ensures EncryptBlock(DecryptBlock(text, key, t), key, t) == text[..8]
  {
    var ks := RoundKeys(key, t);
    CipherUndo(text, Reverse(ks), t);
    ReverseReverse(ks);
  }
}
