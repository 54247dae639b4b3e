/** The CBC mode with ciphertext stealing of `DES::CBC_CTS_encrypt` and
    `DES::CBC_CTS_decrypt` (src/des.cpp), as pure functions over byte
    strings, and the facts about them: exact lengths, plain CBC on whole
    blocks, and decryption undoing encryption.

    The mode only ever hands 8-byte blocks to `encrypt` and `decrypt`, so it
    is stated for any block cipher given as a pair of functions on blocks,
    and then instantiated with the cipher of class DES (`DesEnc`, `DesDec`).

    The layout is CBC-CS1 of the addendum to NIST SP 800-38A: when the
    length is not a multiple of 8, the ciphertext ends with the first d
    bytes of the second-to-last cipher block followed by the whole last
    one. Inputs shorter than one block are zero-padded to a single block,
    which is outside that standard. */
module CbcCts {
  import opened Bytes
  import opened DesTables
  import opened DesSpec

  /** A block function: what `encrypt(x, key)` or `decrypt(x, key)` does
      for a fixed key. */
  type BlockFn = seq<byte> -> seq<byte>

  /** Eight-byte blocks go to eight-byte blocks. */
  ghost predicate OnBlocks(f: BlockFn)
  {
    forall x :: |x| == 8 ==> |f(x)| == 8
  }

  /** `dec` undoes `enc` on every block. */
  ghost predicate Inverts(dec: BlockFn, enc: BlockFn)
  {
    OnBlocks(enc) && OnBlocks(dec) && forall x :: InvertsOn(dec, enc, x)
  }

  /** `dec` undoes `enc` on `x` if `x` is a block. */
  ghost predicate InvertsOn(dec: BlockFn, enc: BlockFn, x: seq<byte>)
  {
    |x| == 8 ==> dec(enc(x)) == x
  }

  /** The hard-coded initialisation vector, the characters "12345678". */
  const IV: seq<byte> := [0x31, 0x32, 0x33, 0x34, 0x35, 0x36, 0x37, 0x38]

  /** The IV is the eight characters "12345678": byte i is the digit i + 1. */
  lemma IVDigits()
    ensures |IV| == 8
    ensures forall i :: 0 <= i < 8 ==> IV[i] as int == '1' as int + i
  {
  }

  /** The chaining value after the whole blocks `c`: the last block, or the
      IV when there is none. */
  function Chain(c: seq<byte>): (prev: seq<byte>)
    requires |c| % 8 == 0
    ensures |prev| == 8
  {
    if c == [] then IV else c[|c| - 8..]
  }

  /** CBC encryption of whole blocks; the last block is encrypted last. */
  ghost function CbcEncrypt(p: seq<byte>, enc: BlockFn): (c: seq<byte>)
    requires |p| % 8 == 0 && OnBlocks(enc)
    ensures |c| == |p|
    decreases |p|
  {
    if p == [] then []
    else
      var c := CbcEncrypt(p[..|p| - 8], enc);
      c + enc(XorBytes(p[|p| - 8..], Chain(c)))
  }

  /** CBC decryption of whole blocks. */
  ghost function CbcDecrypt(c: seq<byte>, dec: BlockFn): (p: seq<byte>)
    requires |c| % 8 == 0 && OnBlocks(dec)
    ensures |p| == |c|
    decreases |c|
  {
    if c == [] then []
    else
      var init := c[..|c| - 8];
      CbcDecrypt(init, dec) + XorBytes(dec(c[|c| - 8..]), Chain(init))
  }

  /** Block b of a CBC ciphertext is the encryption of plaintext block b
      xored with the previous cipher block, or with the IV for block 0. */
  lemma {:induction false} CbcBlock(p: seq<byte>, enc: BlockFn, b: int)
    requires |p| % 8 == 0 && OnBlocks(enc) && 0 <= b < |p| / 8
    ensures var c := CbcEncrypt(p, enc);
      c[8 * b..8 * b + 8] ==
        enc(XorBytes(p[8 * b..8 * b + 8], if b == 0 then IV else c[8 * b - 8..8 * b]))
    decreases |p|
  {
    var n := |p| - 8;
    var c' := CbcEncrypt(p[..n], enc);
    var c := CbcEncrypt(p, enc);
    assert c[..n] == c';
    if b < |p| / 8 - 1 {
      CbcBlock(p[..n], enc, b);
      assert c[8 * b..8 * b + 8] == c'[8 * b..8 * b + 8];
      assert p[..n][8 * b..8 * b + 8] == p[8 * b..8 * b + 8];
      if b > 0 {
        assert c[8 * b - 8..8 * b] == c'[8 * b - 8..8 * b];
      }
    } else {
      assert p[n..n + 8] == p[n..];
      if n > 0 {
        assert c[n - 8..n] == c'[|c'| - 8..];
      }
    }
  }

  /** One more block of CBC encryption, as the loop of CBC_CTS_encrypt adds
      it: encrypt it xored with the chaining value and append it. */
  lemma CbcEncryptExtend(p: seq<byte>, i: int, enc: BlockFn)
    requires OnBlocks(enc) && 0 <= i && i + 8 <= |p| && i % 8 == 0
    ensures var c := CbcEncrypt(p[..i], enc);
      CbcEncrypt(p[..i + 8], enc) == c + enc(XorBytes(p[i..i + 8], Chain(c)))
  {
    assert p[..i + 8][..i] == p[..i];
    assert p[..i + 8][i..] == p[i..i + 8];
  }

  /** One more block of CBC decryption, as the loop of CBC_CTS_decrypt adds
      it: decrypt it, xor with the chaining value and append it. */
  lemma CbcDecryptExtend(c: seq<byte>, i: int, dec: BlockFn)
    requires OnBlocks(dec) && 0 <= i && i + 8 <= |c| && i % 8 == 0
    ensures CbcDecrypt(c[..i + 8], dec) ==
      CbcDecrypt(c[..i], dec) + XorBytes(dec(c[i..i + 8]), Chain(c[..i]))
  {
    assert c[..i + 8][..i] == c[..i];
    assert c[..i + 8][i..] == c[i..i + 8];
  }

  /** CBC decryption undoes CBC encryption. */
  lemma {:induction false} CbcRoundTrip(p: seq<byte>, enc: BlockFn, dec: BlockFn)
    requires |p| % 8 == 0 && Inverts(dec, enc)
    ensures CbcDecrypt(CbcEncrypt(p, enc), dec) == p
    decreases |p|
  {
    if p != [] {
      var init, last := p[..|p| - 8], p[|p| - 8..];
      var c' := CbcEncrypt(init, enc);
      var x := XorBytes(last, Chain(c'));
      var c := c' + enc(x);
      assert c == CbcEncrypt(p, enc);
      assert c[..|c| - 8] == c' && c[|c| - 8..] == enc(x);
      InvertsAt(dec, enc, x);
      XorBytesTwice(last, Chain(c'));
      assert CbcDecrypt(c, dec) == CbcDecrypt(c', dec) + last;
      CbcRoundTrip(init, enc, dec);
      assert init + last == p;
    }
  }

  /** CBC_CTS_encrypt. */
  ghost function CtsEncrypt(p: seq<byte>, enc: BlockFn): (c: seq<byte>)
    requires OnBlocks(enc)
    ensures |p| == 0 ==> c == []
    ensures |p| >= 8 ==> |c| == |p|
    ensures 0 < |p| < 8 ==> |c| == 8
  {
    if |p| == 0 then []
    else if |p| % 8 == 0 then CbcEncrypt(p, enc)
    else if |p| < 8 then ShortEncrypt(p, enc)
    else StealEncrypt(p, enc)
  }

  /** A plaintext shorter than one block: zero-pad it, xor with the IV and
      encrypt the one block. */
  ghost function ShortEncrypt(p: seq<byte>, enc: BlockFn): (c: seq<byte>)
    requires 0 < |p| < 8 && OnBlocks(enc)
    ensures |c| == 8
  {
    enc(XorBytes(p + Zeros(8 - |p|), IV))
  }

  /** Ciphertext stealing, for d = |p| mod 8 > 0 and at least one whole
      block: CBC up to the last whole block P_{n-1}, then the stolen tail. */
  ghost function StealEncrypt(p: seq<byte>, enc: BlockFn): (c: seq<byte>)
    requires |p| > 8 && |p| % 8 != 0 && OnBlocks(enc)
    ensures |c| == |p|
  {
    var full := |p| - |p| % 8;
    var head := CbcEncrypt(p[..full - 8], enc);
    head + StealTail(p[full - 8..full], p[full..], Chain(head), enc)
  }

  /** The last 8 + d bytes of a stolen ciphertext: C_{n-1} is P_{n-1}
      chained on `prev`, C_n is the zero-padded P_n* chained on C_{n-1}, and
      only the first d bytes of C_{n-1} are kept, ahead of C_n. */
  ghost function StealTail(pn1: seq<byte>, pnStar: seq<byte>, prev: seq<byte>, enc: BlockFn)
    : (tail: seq<byte>)
    requires |pn1| == 8 && 0 < |pnStar| < 8 && |prev| == 8 && OnBlocks(enc)
    ensures |tail| == 8 + |pnStar|
  {
    var d := |pnStar|;
    var cn1 := enc(XorBytes(pn1, prev));
    cn1[..d] + enc(XorBytes(pnStar + Zeros(8 - d), cn1))
  }

  /** The stolen tail as CBC_CTS_encrypt assembles it from C_{n-1} and C_n. */
  lemma StealTailFrom(pn1: seq<byte>, pnStar: seq<byte>, prev: seq<byte>, enc: BlockFn,
                      cn1: seq<byte>, cn: seq<byte>)
    requires |pn1| == 8 && 0 < |pnStar| < 8 && |prev| == 8 && OnBlocks(enc)
    requires cn1 == enc(XorBytes(pn1, prev))
    requires cn == enc(XorBytes(pnStar + Zeros(8 - |pnStar|), cn1))
    ensures cn1[..|pnStar|] + cn == StealTail(pn1, pnStar, prev, enc)
  {
  }

  /** CBC_CTS_encrypt of a plaintext with a partial last block is the CBC
      head followed by the stolen tail. */
  lemma StealEncryptFrom(p: seq<byte>, enc: BlockFn, head: seq<byte>, cn1Star: seq<byte>, cn: seq<byte>)
    requires |p| > 8 && |p| % 8 != 0 && OnBlocks(enc)
    requires var full := |p| - |p| % 8;
      && head == CbcEncrypt(p[..full - 8], enc)
      && cn1Star + cn == StealTail(p[full - 8..full], p[full..], Chain(head), enc)
    ensures CtsEncrypt(p, enc) == head + cn1Star + cn
  {
    AppendAssoc(head, cn1Star, cn);
  }

  /** CBC_CTS_encrypt of a non-empty plaintext of whole blocks. */
  lemma WholeEncryptFrom(p: seq<byte>, enc: BlockFn, c: seq<byte>)
    requires |p| > 0 && |p| % 8 == 0 && OnBlocks(enc)
    requires c == CbcEncrypt(p[..|p|], enc)
    ensures CtsEncrypt(p, enc) == c
  {
    assert p[..|p|] == p;
  }

  /** CBC_CTS_encrypt of a plaintext shorter than one block. */
  lemma ShortEncryptFrom(p: seq<byte>, enc: BlockFn, c: seq<byte>)
    requires 0 < |p| < 8 && OnBlocks(enc)
    requires c == enc(XorBytes(p + Zeros(8 - |p|), IV))
    ensures CtsEncrypt(p, enc) == c
  {
  }

  /** On a whole number of blocks, CBC_CTS_encrypt is plain CBC with the IV. */
  lemma CtsWholeBlocks(p: seq<byte>, enc: BlockFn, b: int)
    requires |p| % 8 == 0 && OnBlocks(enc) && 0 <= b < |p| / 8
    ensures var c := CtsEncrypt(p, enc);
      |c| == |p| &&
      c[8 * b..8 * b + 8] ==
        enc(XorBytes(p[8 * b..8 * b + 8], if b == 0 then IV else c[8 * b - 8..8 * b]))
  {
    CbcBlock(p, enc, b);
  }

  /** CBC_CTS_decrypt, with the short-ciphertext branch zero-padding its
      block (see `ShortBlockAsWritten` for the branch as written). */
  ghost function CtsDecrypt(c: seq<byte>, dec: BlockFn): (p: seq<byte>)
    requires OnBlocks(dec)
    ensures |p| == |c|
  {
    if |c| == 0 then []
    else if |c| % 8 == 0 then CbcDecrypt(c, dec)
    else if |c| < 8 + |c| % 8 then ShortDecrypt(c, dec)
    else StealDecrypt(c, dec)
  }

  /** A ciphertext shorter than one block, zero-padded, decrypted, xored
      with the IV and cut to the ciphertext's length. */
  ghost function ShortDecrypt(c: seq<byte>, dec: BlockFn): (p: seq<byte>)
    requires 0 < |c| < 8 && OnBlocks(dec)
    ensures |p| == |c|
  {
    XorBytes(dec(c + Zeros(8 - |c|)), IV)[..|c|]
  }

  /** Undoing the stealing, for d = |c| mod 8 > 0: the whole blocks before
      the last 8 + d bytes are plain CBC, followed by P_{n-1} and P_n*. */
  ghost function StealDecrypt(c: seq<byte>, dec: BlockFn): (p: seq<byte>)
    requires |c| % 8 != 0 && |c| >= 8 + |c| % 8 && OnBlocks(dec)
    ensures |p| == |c|
  {
    var preLen := |c| - (8 + |c| % 8);
    (CbcDecrypt(c[..preLen], dec) + UnstealTail(c[preLen..], Chain(c[..preLen]), dec))[..|c|]
  }

  /** P_{n-1} and P_n* from the last 8 + d bytes: Z = D(C_n), C_{n-1} is
      its d stored bytes followed by the tail of Z, P_{n-1} is D(C_{n-1})
      xor `prev` and P_n* is the first d bytes of Z xor C_{n-1}. */
  ghost function UnstealTail(tail: seq<byte>, prev: seq<byte>, dec: BlockFn): (p: seq<byte>)
    requires 8 < |tail| < 16 && |prev| == 8 && OnBlocks(dec)
    ensures |p| == |tail|
  {
    var d := |tail| - 8;
    var z := dec(tail[d..]);
    var cn1 := tail[..d] + z[d..];
    XorBytes(dec(cn1), prev) + XorBytes(z, cn1)[..d]
  }

  /** P_{n-1} and P_n* as CBC_CTS_decrypt computes them from the tail. */
  lemma UnstealTailFrom(tail: seq<byte>, prev: seq<byte>, dec: BlockFn,
                        z: seq<byte>, cn1: seq<byte>, pn1: seq<byte>, pnStar: seq<byte>)
    requires 8 < |tail| < 16 && |prev| == 8 && OnBlocks(dec)
    requires z == dec(tail[|tail| - 8..])
    requires cn1 == tail[..|tail| - 8] + z[|tail| - 8..]
    requires pn1 == XorBytes(dec(cn1), prev)
    requires pnStar == XorBytes(z, cn1)[..|tail| - 8]
    ensures pn1 + pnStar == UnstealTail(tail, prev, dec)
  {
  }

  /** CBC_CTS_decrypt of a non-empty ciphertext of whole blocks. */
  lemma WholeDecryptFrom(c: seq<byte>, dec: BlockFn, p: seq<byte>)
    requires |c| > 0 && |c| % 8 == 0 && OnBlocks(dec)
    requires p == CbcDecrypt(c[..|c|], dec)
    ensures CtsDecrypt(c, dec) == p
  {
    assert c[..|c|] == c;
  }

  /** CBC_CTS_decrypt of a ciphertext shorter than one block. */
  lemma ShortDecryptFrom(c: seq<byte>, dec: BlockFn, p: seq<byte>)
    requires 0 < |c| < 8 && OnBlocks(dec)
    requires p == XorBytes(dec(c + Zeros(8 - |c|)), IV)
    ensures CtsDecrypt(c, dec) == p[..|c|]
  {
  }

  /** CBC_CTS_decrypt of a ciphertext with a partial last block and at
      least one whole block before it. */
  lemma StealDecryptFrom(c: seq<byte>, dec: BlockFn, head: seq<byte>, pn1: seq<byte>, pnStar: seq<byte>)
    requires |c| % 8 != 0 && |c| >= 8 + |c| % 8 && OnBlocks(dec)
    requires var preLen := |c| - (8 + |c| % 8);
      && head == CbcDecrypt(c[..preLen], dec)
      && pn1 + pnStar == UnstealTail(c[preLen..], Chain(c[..preLen]), dec)
    ensures CtsDecrypt(c, dec) == (head + pn1 + pnStar)[..|c|]
  {
    AppendAssoc(head, pn1, pnStar);
  }

  lemma AppendAssoc(a: seq<byte>, b: seq<byte>, c: seq<byte>)
    ensures a + b + c == a + (b + c)
  {
  }

  /** The short-ciphertext branch of CBC_CTS_decrypt as written hands
      `ciphertext.substr(0, 8)` to decrypt: the whole, shorter ciphertext. */
  function ShortBlockAsWritten(c: seq<byte>): (block: seq<byte>)
    requires 0 < |c| < 8
    ensures |block| == |c| < 8
  {
    c[..if |c| < 8 then |c| else 8]
  }

  /** Every ciphertext of one to seven bytes reaches decrypt as a block
      shorter than the eight bytes text_to_bitset reads (`TextToBlock`
      requires eight), while the zero-padded block has exactly eight. */
  lemma ShortCiphertextOverread(c: seq<byte>)
    requires 0 < |c| < 8
    ensures !(|ShortBlockAsWritten(c)| >= 8)
    ensures |c + Zeros(8 - |c|)| == 8
  {
  }

  /** For a seven-byte ciphertext the eighth byte read is the string's
      terminating '\0', so the zero-padded block is exactly what the code
      as written decrypts. */
  lemma ShortBlockPadded(c: seq<byte>)
    requires |c| == 7
    ensures c + Zeros(8 - |c|) == ShortBlockAsWritten(c) + [0]
  {
  }

  /** With the correction, a ciphertext shorter than one block decrypts to
      the decryption of its zero-padded block, cut to its own length. */
  lemma ShortDecryptPadded(c: seq<byte>, dec: BlockFn)
    requires 0 < |c| < 8 && OnBlocks(dec)
    ensures CtsDecrypt(c, dec) == CtsDecrypt(c + Zeros(8 - |c|), dec)[..|c|]
  {
    var block := c + Zeros(8 - |c|);
    assert block[..0] == [] && block[|block| - 8..] == block;
    assert CbcDecrypt(block, dec) == CbcDecrypt([], dec) + XorBytes(dec(block), IV);
  }

  /** For every plaintext of at least one block, CBC_CTS_decrypt undoes
      CBC_CTS_encrypt. */
  lemma CtsRoundTrip(p: seq<byte>, enc: BlockFn, dec: BlockFn)
    requires |p| >= 8 && Inverts(dec, enc)
    ensures CtsDecrypt(CtsEncrypt(p, enc), dec) == p
  {
    if |p| % 8 == 0 {
      CbcRoundTrip(p, enc, dec);
    } else {
      StealingRoundTrip(p, enc, dec);
    }
  }

  /** Decrypting a stolen ciphertext gives the plaintext back. */
  lemma StealingRoundTrip(p: seq<byte>, enc: BlockFn, dec: BlockFn)
    requires |p| > 8 && |p| % 8 != 0 && Inverts(dec, enc)
    ensures StealDecrypt(StealEncrypt(p, enc), dec) == p
  {
    var preLen := |p| - |p| % 8 - 8;
    var head := CbcEncrypt(p[..preLen], enc);
    var pn1, pnStar := p[preLen..preLen + 8], p[preLen + 8..];
    var c := StealEncrypt(p, enc);
    StealSplit(p, enc);
    StealTailRoundTrip(pn1, pnStar, Chain(head), enc, dec);
    CbcRoundTrip(p[..preLen], enc, dec);
    assert StealDecrypt(c, dec) == (p[..preLen] + (pn1 + pnStar))[..|p|];
    SplitAt(p, preLen);
  }

  /** A stolen ciphertext is the CBC head followed by the stolen tail. */
  lemma StealSplit(p: seq<byte>, enc: BlockFn)
    requires |p| > 8 && |p| % 8 != 0 && OnBlocks(enc)
    ensures var preLen := |p| - |p| % 8 - 8;
      var c := StealEncrypt(p, enc);
      var head := CbcEncrypt(p[..preLen], enc);
      && |c| % 8 == |p| % 8
      && c[..preLen] == head
      && c[preLen..] == StealTail(p[preLen..preLen + 8], p[preLen + 8..], Chain(head), enc)
  {
  }

  /** The three pieces of a stolen plaintext put back together. */
  lemma SplitAt(p: seq<byte>, i: int)
    requires 0 <= i && i + 8 < |p|
    ensures (p[..i] + (p[i..i + 8] + p[i + 8..]))[..|p|] == p
  {
    assert p[..i] + (p[i..i + 8] + p[i + 8..]) == p;
  }

  /** The stolen tail decrypts to P_{n-1} followed by P_n*. */
  lemma StealTailRoundTrip(pn1: seq<byte>, pnStar: seq<byte>, prev: seq<byte>, enc: BlockFn, dec: BlockFn)
    requires |pn1| == 8 && 0 < |pnStar| < 8 && |prev| == 8 && Inverts(dec, enc)
    ensures UnstealTail(StealTail(pn1, pnStar, prev, enc), prev, dec) == pn1 + pnStar
  {
    var d := |pnStar|;
    var x1 := XorBytes(pn1, prev);
    var cn1 := enc(x1);
    var pn := pnStar + Zeros(8 - d);
    var x2 := XorBytes(pn, cn1);
    var tail := cn1[..d] + enc(x2);
    assert tail[d..] == enc(x2) && tail[..d] == cn1[..d];
    InvertsAt(dec, enc, x2);
    PaddingKeepsTail(pnStar, cn1);
    assert cn1[..d] + x2[d..] == cn1;
    InvertsAt(dec, enc, x1);
    XorBytesTwice(pn1, prev);
    XorBytesTwice(pn, cn1);
    assert pn[..d] == pnStar;
  }

  /** Xoring with the zero padding leaves the padded part of a block as it
      was. */
  lemma PaddingKeepsTail(pnStar: seq<byte>, cn1: seq<byte>)
    requires 0 < |pnStar| < 8 && |cn1| == 8
    ensures XorBytes(pnStar + Zeros(8 - |pnStar|), cn1)[|pnStar|..] == cn1[|pnStar|..]
  {
    var pn := pnStar + Zeros(8 - |pnStar|);
    assert forall i :: |pnStar| <= i < 8 ==> pn[i] == 0;
  }

  /** One instance of `Inverts`. */
  lemma InvertsAt(dec: BlockFn, enc: BlockFn, x: seq<byte>)
    requires Inverts(dec, enc) && |x| == 8
    ensures dec(enc(x)) == x
  {
    assert InvertsOn(dec, enc, x);
  }

  /** A plaintext shorter than one block comes back zero-padded to one
      block: the ciphertext is a whole block, decrypted as plain CBC. */
  lemma CtsShortRoundTrip(p: seq<byte>, enc: BlockFn, dec: BlockFn)
    requires 0 < |p| < 8 && Inverts(dec, enc)
    ensures CtsDecrypt(CtsEncrypt(p, enc), dec) == p + Zeros(8 - |p|)
  {
    var padded := p + Zeros(8 - |p|);
    var x := XorBytes(padded, IV);
    var c := enc(x);
    assert CtsEncrypt(p, enc) == c;
    assert c[..0] == [] && c[|c| - 8..] == c;
    var back := XorBytes(dec(c), IV);
    assert CbcDecrypt(c, dec) == CbcDecrypt([], dec) + back;
    assert CtsDecrypt(c, dec) == back;
    assert InvertsOn(dec, enc, x);
    XorBytesTwice(padded, IV);
  }

  // ---------------------------------------------------------------------
  // The mode over the cipher of class DES

  /** `enc` is `encrypt(x, key)` on every block. */
  ghost predicate Encrypts(enc: BlockFn, key: seq<byte>, t: WfTables)
    requires |key| >= 8
  {
    OnBlocks(enc) && forall x :: EncryptsOn(enc, key, t, x)
  }

  ghost predicate EncryptsOn(enc: BlockFn, key: seq<byte>, t: WfTables, x: seq<byte>)
    requires |key| >= 8
  {
    |x| == 8 ==> enc(x) == EncryptBlock(x, key, t)
  }

  /** `dec` is `decrypt(x, key)` on every block. */
  ghost predicate Decrypts(dec: BlockFn, key: seq<byte>, t: WfTables)
    requires |key| >= 8
  {
    OnBlocks(dec) && forall x :: DecryptsOn(dec, key, t, x)
  }

  ghost predicate DecryptsOn(dec: BlockFn, key: seq<byte>, t: WfTables, x: seq<byte>)
    requires |key| >= 8
  {
    |x| == 8 ==> dec(x) == DecryptBlock(x, key, t)
  }

  /** `encrypt(x, key)` as a block function. */
  function DesEnc(key: seq<byte>, t: WfTables): (enc: BlockFn)
    requires |key| >= 8
    ensures Encrypts(enc, key, t)
  {
    x => if |x| >= 8 then EncryptBlock(x, key, t) else x
  }

  /** `decrypt(x, key)` as a block function. */
  function DesDec(key: seq<byte>, t: WfTables): (dec: BlockFn)
    requires |key| >= 8
    ensures Decrypts(dec, key, t)
  {
    x => if |x| >= 8 then DecryptBlock(x, key, t) else x
  }

  /** For every key, decrypt undoes encrypt on blocks and the other way
      round. */
  lemma DesInverts(enc: BlockFn, dec: BlockFn, key: seq<byte>, t: WfTables)
    requires |key| >= 8 && Encrypts(enc, key, t) && Decrypts(dec, key, t)
    ensures Inverts(dec, enc) && Inverts(enc, dec)
  {
    forall x
      ensures InvertsOn(dec, enc, x) && InvertsOn(enc, dec, x)
    {
      if |x| == 8 {
        assert EncryptsOn(enc, key, t, x) && DecryptsOn(dec, key, t, x);
        assert EncryptsOn(enc, key, t, dec(x)) && DecryptsOn(dec, key, t, enc(x));
        DecryptEncrypt(x, key, t);
        EncryptDecrypt(x, key, t);
        assert x[..8] == x;
      }
    }
  }

  /** CBC_CTS_decrypt undoes CBC_CTS_encrypt under the same key for every
      plaintext of at least eight bytes. */
  lemma DesCtsRoundTrip(p: seq<byte>, key: seq<byte>, t: WfTables, enc: BlockFn, dec: BlockFn)
    requires |p| >= 8 && |key| >= 8 && Encrypts(enc, key, t) && Decrypts(dec, key, t)
    ensures CtsDecrypt(CtsEncrypt(p, enc), dec) == p
  {
    DesInverts(enc, dec, key, t);
    CtsRoundTrip(p, enc, dec);
  }

  /** A plaintext of one to seven bytes comes back zero-padded to eight. */
  lemma DesCtsShortRoundTrip(p: seq<byte>, key: seq<byte>, t: WfTables, enc: BlockFn, dec: BlockFn)
    requires 0 < |p| < 8 && |key| >= 8 && Encrypts(enc, key, t) && Decrypts(dec, key, t)
    ensures CtsDecrypt(CtsEncrypt(p, enc), dec) == p + Zeros(8 - |p|)
  {
    DesInverts(enc, dec, key, t);
    CtsShortRoundTrip(p, enc, dec);
  }
}
